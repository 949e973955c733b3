/**
 The replacement `s.replace(/\B(?=(\d{3})+(?!\d))/g, ',')` over an arbitrary string.

 The pattern matches only the empty string: `\B` asks for a position that is not a word
 boundary and the look-ahead asks that one or more whole groups of three digits follow,
 not followed by a further digit. A global replace with such a pattern visits every
 position 0..|s| of the input, and each position where the pattern matches receives a
 comma; the original characters are all kept, in order.
 */
module SeparatorRegex {

  import opened Decimal

  /** `\w`: ASCII letters, digits and the underscore. */
  predicate IsWordChar(c: char) {
    'a' <= c <= 'z' || 'A' <= c <= 'Z' || IsDigit(c) || c == '_'
  }

  /** `\B` at position `j`: the characters on either side are both word characters, or neither is. */
  predicate NonBoundary(s: string, j: nat)
    requires j <= |s|
  {
    var before := j > 0 && IsWordChar(s[j - 1]);
    var after := j < |s| && IsWordChar(s[j]);
    before == after
  }

  predicate ThreeDigits(s: string, j: nat)
    requires j + 3 <= |s|
  {
    IsDigit(s[j]) && IsDigit(s[j + 1]) && IsDigit(s[j + 2])
  }

  /**
   The look-ahead `(?=(\d{3})+(?!\d))` at position `j`: a group of three digits, and then
   either no further digit or, again, one or more groups of three digits not followed by a digit.
   */
  predicate GroupsAhead(s: string, j: nat)
    requires j <= |s|
    decreases |s| - j
  {
    && j + 3 <= |s|
    && ThreeDigits(s, j)
    && (j + 3 == |s| || !IsDigit(s[j + 3]) || GroupsAhead(s, j + 3))
  }

  /** `(\d{3}){k}(?!\d)` at position `j`: exactly `k` groups of three digits, then no digit. */
  predicate GroupsThenNoDigit(s: string, j: nat, k: nat) {
    && 1 <= k
    && j + 3 * k <= |s|
    && (forall i :: j <= i < j + 3 * k ==> IsDigit(s[i]))
    && (j + 3 * k == |s| || !IsDigit(s[j + 3 * k]))
  }

  /** The recursive reading of the look-ahead is the regular expression's: some number of whole groups, then no digit. */
  lemma {:induction false} GroupsAheadMeansSomeCount(s: string, j: nat)
    requires j <= |s|
    ensures GroupsAhead(s, j) <==> exists k :: 1 <= k && GroupsThenNoDigit(s, j, k)
    decreases |s| - j
  {
    if GroupsAhead(s, j) {
      if j + 3 == |s| || !IsDigit(s[j + 3]) {
        assert GroupsThenNoDigit(s, j, 1);
      } else {
        GroupsAheadMeansSomeCount(s, j + 3);
        var k :| 1 <= k && GroupsThenNoDigit(s, j + 3, k);
        assert GroupsThenNoDigit(s, j, k + 1);
      }
    }
    if exists k :: 1 <= k && GroupsThenNoDigit(s, j, k) {
      var k :| 1 <= k && GroupsThenNoDigit(s, j, k);
      assert ThreeDigits(s, j);
      if k > 1 {
        assert GroupsThenNoDigit(s, j + 3, k - 1);
        GroupsAheadMeansSomeCount(s, j + 3);
      }
    }
  }

  /** The whole pattern matches the empty string at position `j`. */
  predicate Matches(s: string, j: nat)
    requires j <= |s|
  {
    NonBoundary(s, j) && GroupsAhead(s, j)
  }

  /** The replacement output for positions `j..|s|` of the input. */
  function ReplaceFrom(s: string, j: nat): string
    requires j <= |s|
    decreases |s| - j
  {
    var sep := if Matches(s, j) then "," else "";
    if j == |s| then sep else sep + [s[j]] + ReplaceFrom(s, j + 1)
  }

  /** The whole replacement: it keeps every character of the input, in order, and adds only commas. */
  function InsertSeparators(s: string): (r: string)
    ensures StripCommas(r) == StripCommas(s)
  {
    ReplaceOnlyInsertsCommas(s, 0);
    assert s[0..] == s;
    ReplaceFrom(s, 0)
  }

  /** Removes every comma, keeping the other characters in order. */
  function StripCommas(t: string): string {
    if |t| == 0 then ""
    else
      assert t == [t[0]] + t[1..];
      (if t[0] == ',' then "" else [t[0]]) + StripCommas(t[1..])
  }

  lemma {:induction false} StripCommasAppend(a: string, b: string)
    ensures StripCommas(a + b) == StripCommas(a) + StripCommas(b)
  {
    if |a| > 0 {
      assert (a + b)[1..] == a[1..] + b;
      StripCommasAppend(a[1..], b);
    } else {
      assert a + b == b;
    }
  }

  lemma {:induction false} StripCommasOfCommaFree(t: string)
    requires forall i :: 0 <= i < |t| ==> t[i] != ','
    ensures StripCommas(t) == t
  {
    if |t| > 0 {
      var rest := t[1..];
      assert forall i :: 0 <= i < |rest| ==> rest[i] == t[i + 1];
      StripCommasOfCommaFree(rest);
      assert t == [t[0]] + rest;
    }
  }

  /** On any input at all the replacement only inserts commas: removing them restores the input's other characters. */
  lemma {:induction false} ReplaceOnlyInsertsCommas(s: string, j: nat)
    requires j <= |s|
    ensures StripCommas(ReplaceFrom(s, j)) == StripCommas(s[j..])
    decreases |s| - j
  {
    if j == |s| {
      NoMatchAtEnd(s);
    } else {
      ReplaceOnlyInsertsCommas(s, j + 1);
      StripReplaceStep(s, j);
      StripCons(s[j], s[j + 1..]);
      assert s[j..] == [s[j]] + s[j + 1..];
    }
  }

  /** Removing commas from one step of the replacement keeps that step's input character, unless it is itself a comma. */
  lemma StripReplaceStep(s: string, j: nat)
    requires j < |s|
    ensures StripCommas(ReplaceFrom(s, j)) == (if s[j] == ',' then "" else [s[j]]) + StripCommas(ReplaceFrom(s, j + 1))
  {
    var rest := ReplaceFrom(s, j + 1);
    var out := [s[j]] + rest;
    if Matches(s, j) {
      ReplaceInserts(s, j);
      assert ReplaceFrom(s, j) == [','] + out;
      StripCons(',', out);
    } else {
      ReplaceCopies(s, j);
    }
    StripCons(s[j], rest);
  }

  lemma StripCons(c: char, x: string)
    ensures StripCommas([c] + x) == (if c == ',' then "" else [c]) + StripCommas(x)
  {
    assert ([c] + x)[1..] == x;
  }

  /** On a string of digits the pattern matches exactly at the interior positions followed by a multiple of three digits. */
  lemma MatchesInDigits(s: string, j: nat)
    requires AllDigits(s) && j <= |s|
    ensures Matches(s, j) <==> 0 < j < |s| && (|s| - j) % 3 == 0
  {
    GroupsAheadInDigits(s, j);
  }

  /** In a string of digits, the look-ahead holds exactly where a positive multiple of three digits remains. */
  lemma {:induction false} GroupsAheadInDigits(s: string, j: nat)
    requires AllDigits(s) && j <= |s|
    ensures GroupsAhead(s, j) <==> j < |s| && (|s| - j) % 3 == 0
    decreases |s| - j
  {
    if j + 3 < |s| {
      GroupsAheadInDigits(s, j + 3);
    }
  }

  /** The look-ahead needs three characters, so nothing is inserted at the end of the input. */
  lemma NoMatchAtEnd(s: string)
    ensures ReplaceFrom(s, |s|) == ""
  {
  }

  /** One step of the replacement: a position with no match copies its character. */
  lemma ReplaceCopies(s: string, j: nat)
    requires j < |s| && !Matches(s, j)
    ensures ReplaceFrom(s, j) == [s[j]] + ReplaceFrom(s, j + 1)
  {
  }

  /** One step of the replacement: a matching position receives a comma before its character. */
  lemma ReplaceInserts(s: string, j: nat)
    requires j < |s| && Matches(s, j)
    ensures ReplaceFrom(s, j) == "," + [s[j]] + ReplaceFrom(s, j + 1)
  {
  }

  /** Positions with no match copy the input unchanged. */
  lemma {:induction false} CopyWithoutMatches(s: string, j: nat)
    requires j <= |s|
    requires forall i :: j <= i <= |s| ==> !Matches(s, i)
    ensures ReplaceFrom(s, j) == s[j..]
    decreases |s| - j
  {
    if j < |s| {
      CopyWithoutMatches(s, j + 1);
      assert s[j..] == [s[j]] + s[j + 1..];
    }
  }

}
