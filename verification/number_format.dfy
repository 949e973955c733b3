/**
 `formatNumber(num)`: the decimal numeral of a non-negative integer with a comma
 between each group of three digits, counting from the right.
 */
module NumberFormat {

  import opened Decimal
  import opened SeparatorRegex

  /**
   Reference grouping, written independently of the regular expression: the last three
   digits form a group, and what precedes them is grouped the same way.
   */
  function Group(d: string): (t: string)
    requires AllDigits(d)
    ensures StripCommas(t) == d
    ensures |d| >= 1 ==> Grouped(t)
  {
    if |d| <= 3 then
      GroupedShort(d);
      d
    else
      var head := d[..|d| - 3];
      var tail := d[|d| - 3..];
      var g := Group(head);
      GroupStep(d, g);
      g + "," + tail
  }

  lemma CommaFreeDigits(d: string)
    requires AllDigits(d)
    ensures StripCommas(d) == d
  {
    forall i | 0 <= i < |d|
      ensures d[i] != ','
    {
    }
    StripCommasOfCommaFree(d);
  }

  lemma GroupedShort(d: string)
    requires AllDigits(d) && |d| <= 3
    ensures StripCommas(d) == d
    ensures |d| >= 1 ==> Grouped(d)
  {
    CommaFreeDigits(d);
    forall i | 0 <= i < |d|
      ensures d[i] == ',' <==> (|d| - i) % 4 == 0
    {
      ModSmall(|d| - i);
    }
    if |d| >= 1 {
      ModSmall(|d|);
    }
  }

  lemma GroupStep(d: string, g: string)
    requires AllDigits(d) && |d| > 3
    requires StripCommas(g) == d[..|d| - 3] && Grouped(g)
    ensures StripCommas(g + "," + d[|d| - 3..]) == d
    ensures Grouped(g + "," + d[|d| - 3..])
  {
    var tail := d[|d| - 3..];
    assert d == d[..|d| - 3] + tail;
    StripCommasAroundComma(g, tail);
    GroupedExtend(g, tail);
  }

  /**
   The shape of a grouped numeral `t`: a comma stands exactly at the positions that have a
   multiple of four characters from there to the end, every other character is a digit, and
   the length is not a multiple of four (so the leading group is not empty).
   */
  predicate Grouped(t: string) {
    && |t| % 4 != 0
    && (forall i :: 0 <= i < |t| ==> (t[i] == ',' <==> (|t| - i) % 4 == 0))
    && (forall i :: 0 <= i < |t| && t[i] != ',' ==> IsDigit(t[i]))
  }

  lemma GroupedExtend(g: string, tail: string)
    requires Grouped(g) && |tail| == 3 && AllDigits(tail)
    ensures Grouped(g + "," + tail)
  {
    var t := g + "," + tail;
    ModShiftFour(|g|);
    forall i | 0 <= i < |t|
      ensures t[i] == ',' <==> (|t| - i) % 4 == 0
      ensures t[i] != ',' ==> IsDigit(t[i])
    {
      if i < |g| {
        assert t[i] == g[i];
        ModShiftFour(|g| - i);
      } else if i > |g| {
        assert t[i] == tail[i - |g| - 1];
        ModSmall(|t| - i);
      } else {
        ModShiftFour(0);
      }
    }
  }

  lemma ModShiftFour(x: nat)
    ensures (x + 4) % 4 == x % 4
  {
  }

  lemma ModSmall(x: nat)
    requires 1 <= x <= 3
    ensures x % 4 == x
  {
  }

  /** `formatNumber(n)`: the regular-expression replacement applied to `n.toString()`. */
  function FormatNumber(n: nat): (t: string)
    ensures StripCommas(t) == NatToString(n)
    ensures Grouped(t)
    ensures t == Group(NatToString(n))
  {
    RegexGroupsDigits(NatToString(n));
    InsertSeparators(NatToString(n))
  }

  /** On digit strings the regular-expression replacement and the reference grouping agree. */
  lemma RegexGroupsDigits(d: string)
    requires AllDigits(d)
    ensures InsertSeparators(d) == Group(d)
    decreases |d|
  {
    if |d| <= 3 {
      forall i | 0 <= i <= |d|
        ensures !Matches(d, i)
      {
        MatchesInDigits(d, i);
      }
      CopyWithoutMatches(d, 0);
    } else {
      var head := d[..|d| - 3];
      RegexGroupsDigits(head);
      ReplaceSplit(d, 0);
    }
  }

  /**
   Replacing from position `j` of a digit string `d` longer than three gives the replacement
   of its head from `j`, then a comma, then its last three digits.
   */
  lemma {:induction false} ReplaceSplit(d: string, j: nat)
    requires AllDigits(d) && |d| > 3 && j <= |d| - 3
    ensures ReplaceFrom(d, j) == ReplaceFrom(d[..|d| - 3], j) + "," + d[|d| - 3..]
    decreases |d| - j
  {
    var head := d[..|d| - 3];
    if j == |head| {
      ReplaceLastGroup(d);
    } else {
      var sep := if Matches(d, j) then "," else "";
      var tail := d[|d| - 3..];
      var rest := ReplaceFrom(head, j + 1);
      ReplaceSplit(d, j + 1);
      SameMatchesInHead(d, j);
      assert head[j] == d[j];
      assert ReplaceFrom(d, j) == sep + [d[j]] + (rest + "," + tail);
      assert ReplaceFrom(head, j) == sep + [d[j]] + rest;
    }
  }

  /** The replacement of the last three digits of a digit string longer than three is a comma and those digits. */
  lemma ReplaceLastGroup(d: string)
    requires AllDigits(d) && |d| > 3
    ensures ReplaceFrom(d, |d| - 3) == "," + d[|d| - 3..]
    ensures ReplaceFrom(d[..|d| - 3], |d| - 3) == ""
  {
    var n := |d|;
    NoMatchAtEnd(d[..n - 3]);
    ReplaceLastTwo(d);
    MatchesInDigits(d, n - 3);
    ReplaceInserts(d, n - 3);
    assert [d[n - 3]] + d[n - 2..] == d[n - 3..];
  }

  /** The last two digits of a digit string longer than three are copied unchanged. */
  lemma ReplaceLastTwo(d: string)
    requires AllDigits(d) && |d| > 3
    ensures ReplaceFrom(d, |d| - 2) == d[|d| - 2..]
  {
    var n := |d|;
    ReplaceLastOne(d);
    MatchesInDigits(d, n - 2);
    ReplaceCopies(d, n - 2);
    assert [d[n - 2]] + [d[n - 1]] == d[n - 2..];
  }

  /** The last digit of a digit string longer than three is copied unchanged. */
  lemma ReplaceLastOne(d: string)
    requires AllDigits(d) && |d| > 3
    ensures ReplaceFrom(d, |d| - 1) == [d[|d| - 1]]
  {
    var n := |d|;
    NoMatchAtEnd(d);
    MatchesInDigits(d, n - 1);
    ReplaceCopies(d, n - 1);
  }

  /** Before its last three digits, a digit string and its head have the same match positions. */
  lemma SameMatchesInHead(d: string, j: nat)
    requires AllDigits(d) && |d| > 3 && j < |d| - 3
    ensures Matches(d, j) == Matches(d[..|d| - 3], j)
  {
    var head := d[..|d| - 3];
    MatchesInDigits(d, j);
    MatchesInDigits(head, j);
    ModShiftThree(|head| - j);
  }

  lemma ModShiftThree(x: nat)
    ensures (x + 3) % 3 == x % 3
  {
  }

  /** A grouped numeral is determined by its digits: there is one way to place the commas. */
  lemma {:induction false} GroupedUnique(t: string)
    requires Grouped(t)
    ensures AllDigits(StripCommas(t))
    ensures t == Group(StripCommas(t))
    decreases |t|
  {
    if |t| <= 3 {
      GroupedShortIsDigits(t);
      CommaFreeDigits(t);
    } else {
      var head := t[..|t| - 4];
      var tail := t[|t| - 3..];
      GroupedSplit(t);
      GroupedUnique(head);
      StripCommasAroundComma(head, tail);
      GroupedStartsWithDigit(head);
      GroupUnfold(StripCommas(head) + tail);
    }
  }

  lemma StripCommasAroundComma(head: string, tail: string)
    requires AllDigits(tail)
    ensures StripCommas(head + "," + tail) == StripCommas(head) + tail
  {
    StripCommasAppend(head + ",", tail);
    StripCommasAppend(head, ",");
    CommaFreeDigits(tail);
  }

  lemma GroupedStartsWithDigit(t: string)
    requires Grouped(t)
    ensures |StripCommas(t)| >= 1
  {
    ModSmall(1);
    LeadOffsets(|t|, 0);
    assert t == [t[0]] + t[1..];
  }

  /** Appending three digits to a numeral appends a comma and those digits to its grouping. */
  lemma GroupAppend(a: string, b: string)
    requires AllDigits(a) && |a| >= 1 && AllDigits(b) && |b| == 3
    ensures Group(a + b) == Group(a) + "," + b
  {
    var d := a + b;
    assert d[..|d| - 3] == a;
    assert d[|d| - 3..] == b;
    GroupUnfold(d);
  }

  lemma GroupUnfold(d: string)
    requires AllDigits(d) && |d| > 3
    ensures Group(d) == Group(d[..|d| - 3]) + "," + d[|d| - 3..]
  {
  }

  lemma GroupedShortIsDigits(t: string)
    requires Grouped(t) && |t| <= 3
    ensures AllDigits(t)
  {
    forall i | 0 <= i < |t|
      ensures IsDigit(t[i])
    {
      ModSmall(|t| - i);
    }
  }

  /** A grouped numeral longer than three is a shorter grouped numeral, a comma and three digits. */
  lemma GroupedSplit(t: string)
    requires Grouped(t) && |t| > 3
    ensures |t| >= 5
    ensures t == t[..|t| - 4] + "," + t[|t| - 3..]
    ensures Grouped(t[..|t| - 4])
    ensures AllDigits(t[|t| - 3..])
  {
    assert |t| != 4;
    var head := t[..|t| - 4];
    var tail := t[|t| - 3..];
    assert t[|t| - 4] == ',';
    assert t == head + "," + tail;
    ModShiftFour(|head|);
    forall i | 0 <= i < |head|
      ensures head[i] == ',' <==> (|head| - i) % 4 == 0
      ensures head[i] != ',' ==> IsDigit(head[i])
    {
      assert head[i] == t[i];
      ModShiftFour(|head| - i);
    }
    forall i | 0 <= i < 3
      ensures IsDigit(tail[i])
    {
      assert tail[i] == t[|t| - 3 + i];
      ModSmall(3 - i);
    }
  }

  /**
   The output is characterised by two facts: it has the grouped shape, and removing the
   commas gives the plain numeral. No other string has both.
   */
  lemma FormatNumberCharacterised(n: nat, t: string)
    ensures FormatNumber(n) == t <==> Grouped(t) && StripCommas(t) == NatToString(n)
  {
    if Grouped(t) && StripCommas(t) == NatToString(n) {
      GroupedUnique(t);
    }
  }

  /** The fixed group lengths, stated group by group: a leading group of one to three digits, then groups of a comma and three digits. */
  function LeadLength(t: string): nat {
    |t| % 4
  }

  function GroupStart(t: string, g: nat): nat {
    LeadLength(t) + 4 * g
  }

  lemma FormatNumberGroups(n: nat)
    ensures var t := FormatNumber(n);
      && 1 <= LeadLength(t) <= 3
      && t[0] != ',' && t[|t| - 1] != ','
      && (forall i :: 0 <= i < LeadLength(t) ==> IsDigit(t[i]))
      && (forall g :: 0 <= g < |t| / 4 ==>
            && GroupStart(t, g) + 3 < |t|
            && t[GroupStart(t, g)] == ','
            && IsDigit(t[GroupStart(t, g) + 1])
            && IsDigit(t[GroupStart(t, g) + 2])
            && IsDigit(t[GroupStart(t, g) + 3]))
  {
    GroupedGroups(FormatNumber(n));
  }

  lemma GroupedGroups(t: string)
    requires Grouped(t)
    ensures 1 <= LeadLength(t) <= 3
    ensures t[0] != ',' && t[|t| - 1] != ','
    ensures forall i :: 0 <= i < LeadLength(t) ==> IsDigit(t[i])
    ensures forall g :: 0 <= g < |t| / 4 ==>
            && GroupStart(t, g) + 3 < |t|
            && t[GroupStart(t, g)] == ','
            && IsDigit(t[GroupStart(t, g) + 1])
            && IsDigit(t[GroupStart(t, g) + 2])
            && IsDigit(t[GroupStart(t, g) + 3])
  {
    LeadOffsets(|t|, 0);
    ModSmall(1);
    forall g | 0 <= g < |t| / 4
      ensures GroupStart(t, g) + 3 < |t|
      ensures t[GroupStart(t, g)] == ','
      ensures IsDigit(t[GroupStart(t, g) + 1])
      ensures IsDigit(t[GroupStart(t, g) + 2])
      ensures IsDigit(t[GroupStart(t, g) + 3])
    {
      GroupOffsets(|t|, g);
    }
    forall i | 0 <= i < LeadLength(t)
      ensures IsDigit(t[i])
    {
      LeadOffsets(|t|, i);
    }
  }

  lemma GroupOffsets(len: nat, g: nat)
    requires len % 4 != 0 && g < len / 4
    ensures len % 4 + 4 * g + 3 < len
    ensures (len - (len % 4 + 4 * g)) % 4 == 0
    ensures (len - (len % 4 + 4 * g + 1)) % 4 == 3
    ensures (len - (len % 4 + 4 * g + 2)) % 4 == 2
    ensures (len - (len % 4 + 4 * g + 3)) % 4 == 1
  {
    var q := len / 4;
    assert len == 4 * q + len % 4;
    assert len - (len % 4 + 4 * g) == 4 * (q - g);
  }

  lemma LeadOffsets(len: nat, i: nat)
    requires i < len % 4
    ensures (len - i) % 4 != 0
  {
    var q := len / 4;
    assert len - i == 4 * q + (len % 4 - i);
  }

  /** Numbers below one thousand are printed unchanged, and only those. */
  lemma SmallNumbersUnchanged(n: nat)
    ensures FormatNumber(n) == NatToString(n) <==> n < 1000
  {
    LengthBound(n, 3);
    var s := NatToString(n);
    var t := FormatNumber(n);
    if |s| > 3 {
      assert t[|t| - 4] == ',';
      assert ',' in t;
    }
  }

  /** Reading a formatted number back: drop the commas, then read the digits. */
  function ParseGrouped(t: string): (v: nat)
    requires AllDigits(StripCommas(t))
  {
    DigitsValue(StripCommas(t))
  }

  lemma ParseFormatted(n: nat)
    ensures ParseGrouped(FormatNumber(n)) == n
  {
  }

  /** Formatting the value read back from a formatted number reproduces it. */
  lemma FormatIdempotent(n: nat)
    ensures FormatNumber(ParseGrouped(FormatNumber(n))) == FormatNumber(n)
  {
    ParseFormatted(n);
  }

  lemma FormatNumberInjective(a: nat, b: nat)
    ensures FormatNumber(a) == FormatNumber(b) <==> a == b
  {
    if FormatNumber(a) == FormatNumber(b) {
      ParseFormatted(a);
      ParseFormatted(b);
    }
  }

  lemma FormatNumberSmallExample()
    ensures FormatNumber(817) == "817"
  {
    assert NatToString(81) == "81";
    assert NatToString(817) == "817";
    SmallNumbersUnchanged(817);
  }

  lemma FormatNumberPriceExample()
    ensures FormatNumber(78400) == "78,400"
  {
    PriceNumeral();
    PriceGrouping();
  }

  lemma PriceGrouping()
    ensures Group("78400") == "78,400"
  {
    assert Group("78") == "78";
    GroupAppend("78", "400");
    assert "78" + "400" == "78400";
  }

  lemma PriceNumeral()
    ensures NatToString(78400) == "78400"
  {
    assert NatToString(78) == "78";
    assert NatToString(784) == "784";
    assert NatToString(7840) == "7840";
  }

  lemma FormatNumberLargeExample()
    ensures FormatNumber(39200000) == "39,200,000"
  {
    LargeNumeral();
    LargeGrouping();
  }

  lemma LargeNumeral()
    ensures NatToString(39200000) == "39200000"
  {
    assert NatToString(39) == "39";
    assert NatToString(392) == "392";
    assert NatToString(3920) == "3920";
    assert NatToString(39200) == "39200";
    assert NatToString(392000) == "392000";
    assert NatToString(3920000) == "3920000";
  }

  lemma LargeGrouping()
    ensures Group("39200000") == "39,200,000"
  {
    LargeHeadGrouping();
    GroupAppend("39200", "000");
    assert "39200" + "000" == "39200000";
  }

  lemma LargeHeadGrouping()
    ensures Group("39200") == "39,200"
  {
    assert Group("39") == "39";
    GroupAppend("39", "200");
    assert "39" + "200" == "39200";
  }

}
