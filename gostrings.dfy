/**
 * The parts of Go's `strings` and `strconv` packages that the tools rely on:
 * `strings.HasPrefix`, `strings.ReplaceAll`, `strings.NewReplacer(...).Replace`
 * and `strconv.Itoa`, with `Index` and `Atoi` as their readers for stating
 * what the tools write.
 *
 * A Go string is a sequence of bytes and these functions compare bytes; the
 * model compares characters. For a non-empty pattern both find the same
 * matches. An empty pattern matches at every position: Go's replacer then
 * steps one byte at a time and so inserts inside multi-byte characters,
 * while the model, like `strings.ReplaceAll`, inserts between characters.
 */
module GoStrings {
  import opened Wrappers

  predicate HasPrefix(s: string, prefix: string) {
    |prefix| <= |s| && s[..|prefix|] == prefix
  }

  /** `sub` occurs in `s` starting at position `i`. */
  predicate OccursAt(s: string, sub: string, i: nat) {
    i + |sub| <= |s| && s[i..i + |sub|] == sub
  }

  predicate Contains(s: string, sub: string) {
    exists i: nat | i <= |s| :: OccursAt(s, sub, i)
  }

  lemma OccursInTail(s: string, sub: string, i: nat)
    requires |s| > 0
    ensures OccursAt(s[1..], sub, i) <==> OccursAt(s, sub, i + 1)
  {
    if i + |sub| <= |s[1..]| {
      assert s[1..][i..i + |sub|] == s[i + 1..i + 1 + |sub|];
    }
  }

  /** strings.Index: the position of the first occurrence of `sub`, or -1. */
  function Index(s: string, sub: string): (r: int)
    ensures r == -1 <==> !Contains(s, sub)
    ensures r >= 0 ==> OccursAt(s, sub, r) && forall i: nat :: i < r ==> !OccursAt(s, sub, i)
    decreases |s|
  {
    if |s| < |sub| then
      -1
    else if HasPrefix(s, sub) then
      assert OccursAt(s, sub, 0);
      0
    else
      var r := Index(s[1..], sub);
      IndexStep(s, sub, r);
      if r < 0 then -1 else r + 1
  }

  /** The first occurrence in `s` is one past the first occurrence in its tail, when `s` does not start with `sub`. */
  lemma IndexStep(s: string, sub: string, r: int)
    requires |sub| <= |s| && !HasPrefix(s, sub) && r >= -1
    requires r == -1 <==> !Contains(s[1..], sub)
    requires r >= 0 ==> OccursAt(s[1..], sub, r) && forall i: nat :: i < r ==> !OccursAt(s[1..], sub, i)
    ensures r < 0 ==> !Contains(s, sub)
    ensures r >= 0 ==> OccursAt(s, sub, r + 1) && forall i: nat :: i < r + 1 ==> !OccursAt(s, sub, i)
  {
    assert !OccursAt(s, sub, 0) by {
      assert s[0..|sub|] == s[..|sub|];
    }
    if r < 0 {
      forall i: nat | i <= |s|
        ensures !OccursAt(s, sub, i)
      {
        if i > 0 {
          OccursInTail(s, sub, i - 1);
        }
      }
    } else {
      OccursInTail(s, sub, r);
      forall i: nat | i < r + 1
        ensures !OccursAt(s, sub, i)
      {
        if i > 0 {
          OccursInTail(s, sub, i - 1);
        }
      }
    }
  }

  /**
   * strings.ReplaceAll(s, pat, rep). The scan goes left to right: where
   * `pat` starts, `rep` is emitted and the scan resumes after the match, so
   * matches never overlap. An empty pattern matches at the start and after
   * every character.
   */
  function ReplaceAll(s: string, pat: string, rep: string): string
    decreases |s|
  {
    if pat == [] then
      rep + (if s == [] then [] else [s[0]] + ReplaceAll(s[1..], pat, rep))
    else if s == [] then
      []
    else if HasPrefix(s, pat) then
      rep + ReplaceAll(s[|pat|..], pat, rep)
    else
      [s[0]] + ReplaceAll(s[1..], pat, rep)
  }

  lemma {:induction false} ReplaceAllWithoutOccurrence(s: string, pat: string, rep: string)
    requires pat != [] && !Contains(s, pat)
    ensures ReplaceAll(s, pat, rep) == s
    decreases |s|
  {
    if s != [] {
      assert !HasPrefix(s, pat) by {
        if HasPrefix(s, pat) {
          assert OccursAt(s, pat, 0);
        }
      }
      forall i: nat | i <= |s[1..]|
        ensures !OccursAt(s[1..], pat, i)
      {
        OccursInTail(s, pat, i);
      }
      ReplaceAllWithoutOccurrence(s[1..], pat, rep);
    }
  }

  // ---------------------------------------------------------------------
  // strings.NewReplacer(oldnew...).Replace(s)
  //
  // `oldnew` is the flat argument list [old0, new0, old1, new1, ...]. The
  // target is scanned left to right; at each position the pair that comes
  // first in the argument list among those whose old string starts there
  // wins, its new string is emitted and scanning resumes after the matched
  // text, which is never rescanned. Right after an empty match the empty old
  // string is ignored, so that the scan moves on.
  // ---------------------------------------------------------------------

  /** Pair `k`'s old string matches at the start of `t`. */
  predicate MatchesAt(oldnew: seq<string>, k: nat, t: string, skipEmpty: bool)
    requires 2 * k + 1 < |oldnew|
  {
    HasPrefix(t, oldnew[2 * k]) && !(skipEmpty && oldnew[2 * k] == [])
  }

  /** The first pair, from index `from` on, that matches at the start of `t`. */
  function FirstMatch(oldnew: seq<string>, t: string, skipEmpty: bool, from: nat): (r: Option<nat>)
    requires |oldnew| % 2 == 0
    ensures r.Some? ==> from <= r.value && 2 * r.value + 1 < |oldnew| && MatchesAt(oldnew, r.value, t, skipEmpty)
    ensures forall k: nat :: from <= k && 2 * k + 1 < |oldnew| && (r.None? || k < r.value) ==>
              !MatchesAt(oldnew, k, t, skipEmpty)
    decreases |oldnew| - 2 * from
  {
    if 2 * from >= |oldnew| then None
    else if MatchesAt(oldnew, from, t, skipEmpty) then Some(from)
    else FirstMatch(oldnew, t, skipEmpty, from + 1)
  }

  function ReplaceFrom(oldnew: seq<string>, t: string, skipEmpty: bool): string
    requires |oldnew| % 2 == 0
    decreases |t|, if skipEmpty then 0 else 1
  {
    match FirstMatch(oldnew, t, skipEmpty, 0)
    case Some(k) =>
      if oldnew[2 * k] == [] then oldnew[2 * k + 1] + ReplaceFrom(oldnew, t, true)
      else oldnew[2 * k + 1] + ReplaceFrom(oldnew, t[|oldnew[2 * k]|..], false)
    case None =>
      if t == [] then [] else [t[0]] + ReplaceFrom(oldnew, t[1..], false)
  }

  /** strings.NewReplacer(oldnew...).Replace(s); Go panics on an odd count. */
  function Replace(oldnew: seq<string>, s: string): string
    requires |oldnew| % 2 == 0
  {
    ReplaceFrom(oldnew, s, false)
  }

  /** With no pairs the replacer is the identity. */
  lemma {:induction false} ReplaceWithoutPairs(s: string)
    ensures Replace([], s) == s
  {
    if s != [] {
      ReplaceWithoutPairs(s[1..]);
    }
  }

  /** Text in which no old string occurs passes through unchanged. */
  lemma {:induction false} ReplaceWithoutOccurrence(oldnew: seq<string>, s: string)
    requires |oldnew| % 2 == 0
    requires forall k: nat :: 2 * k + 1 < |oldnew| ==> oldnew[2 * k] != [] && !Contains(s, oldnew[2 * k])
    ensures Replace(oldnew, s) == s
  {
    forall k: nat | 2 * k + 1 < |oldnew|
      ensures !MatchesAt(oldnew, k, s, false)
    {
      if HasPrefix(s, oldnew[2 * k]) {
        assert OccursAt(s, oldnew[2 * k], 0);
      }
    }
    if s != [] {
      forall k: nat | 2 * k + 1 < |oldnew|
        ensures oldnew[2 * k] != [] && !Contains(s[1..], oldnew[2 * k])
      {
        if Contains(s[1..], oldnew[2 * k]) {
          var i: nat :| OccursAt(s[1..], oldnew[2 * k], i);
          OccursInTail(s, oldnew[2 * k], i);
        }
      }
      ReplaceWithoutOccurrence(oldnew, s[1..]);
    }
  }

  /**
   * At a position where several old strings start, the one listed first
   * wins; its new string is emitted and scanning resumes after the matched
   * input, so the new string is never rescanned.
   */
  lemma EarliestPairWins(oldnew: seq<string>, k: nat, t: string)
    requires |oldnew| % 2 == 0 && 2 * k + 1 < |oldnew|
    requires oldnew[2 * k] != [] && HasPrefix(t, oldnew[2 * k])
    requires forall j: nat :: j < k ==> !HasPrefix(t, oldnew[2 * j])
    ensures Replace(oldnew, t) == oldnew[2 * k + 1] + Replace(oldnew, t[|oldnew[2 * k]|..])
  {
    var r := FirstMatch(oldnew, t, false, 0);
    assert MatchesAt(oldnew, k, t, false);
    assert r == Some(k);
  }

  /**
   * A replacer with a single pair behaves exactly as strings.ReplaceAll, so
   * every occurrence is replaced, not only the first.
   */
  lemma SinglePairIsReplaceAll(pat: string, rep: string, s: string)
    ensures Replace([pat, rep], s) == ReplaceAll(s, pat, rep)
  {
    if pat == [] {
      EmptyPatternReplace(rep, s);
    } else {
      PatternReplace(pat, rep, s);
    }
  }

  /** An empty old string inserts its new string before every character and at the end. */
  lemma {:induction false} EmptyPatternReplace(rep: string, s: string)
    ensures Replace([[], rep], s) == ReplaceAll(s, [], rep)
    decreases |s|
  {
    var oldnew: seq<string> := [[], rep];
    assert MatchesAt(oldnew, 0, s, false);
    assert FirstMatch(oldnew, s, false, 0) == Some(0);
    assert !MatchesAt(oldnew, 0, s, true);
    assert FirstMatch(oldnew, s, true, 0) == None;
    assert ReplaceFrom(oldnew, s, true) == if s == [] then [] else [s[0]] + ReplaceFrom(oldnew, s[1..], false);
    if s != [] {
      EmptyPatternReplace(rep, s[1..]);
    }
  }

  /** A non-empty old string is replaced at each of its non-overlapping occurrences. */
  lemma {:induction false} PatternReplace(pat: string, rep: string, s: string)
    requires pat != []
    ensures Replace([pat, rep], s) == ReplaceAll(s, pat, rep)
    decreases |s|
  {
    var oldnew := [pat, rep];
    if s == [] || !HasPrefix(s, pat) {
      assert !MatchesAt(oldnew, 0, s, false);
      assert FirstMatch(oldnew, s, false, 0) == None;
      if s != [] {
        PatternReplace(pat, rep, s[1..]);
      }
    } else {
      EarliestPairWins(oldnew, 0, s);
      PatternReplace(pat, rep, s[|pat|..]);
    }
  }

  // ---------------------------------------------------------------------
  // strconv.Itoa for the non-negative integers the tools format
  // ---------------------------------------------------------------------

  function DigitChar(d: nat): (c: char)
    requires d < 10
    ensures '0' <= c <= '9' && (c as int) - ('0' as int) == d
  {
    (d + '0' as int) as char
  }

  predicate IsDecimal(s: string) {
    forall i :: 0 <= i < |s| ==> '0' <= s[i] <= '9'
  }

  /** strconv.Itoa: decimal digits without leading zeros. */
  function Itoa(n: nat): (s: string)
    ensures 1 <= |s| && IsDecimal(s)
    ensures |s| > 1 ==> s[0] != '0'
    decreases n
  {
    if n < 10 then [DigitChar(n)] else Itoa(n / 10) + [DigitChar(n % 10)]
  }

  /** strconv.Atoi restricted to digit strings. */
  function Atoi(s: string): nat
    requires IsDecimal(s)
  {
    if s == [] then 0
    else
      assert IsDecimal(s[..|s| - 1]);
      Atoi(s[..|s| - 1]) * 10 + ((s[|s| - 1] as int) - ('0' as int))
  }

  lemma {:induction false} AtoiItoa(n: nat)
    ensures Atoi(Itoa(n)) == n
    decreases n
  {
    if n >= 10 {
      var s := Itoa(n);
      assert s[..|s| - 1] == Itoa(n / 10);
      AtoiItoa(n / 10);
    }
  }
}
