/**
 The investment calculator: a brick count chosen on the slider determines the total
 price, the monthly rent and the annual return, each shown as a grouped numeral, plus a
 fixed return-percentage label.
 */
module Calculator {

  import opened Decimal
  import opened SeparatorRegex
  import opened NumberFormat

  const BrickPrice: nat := 78400
  const MonthlyRentPerBrick: nat := 817
  const MonthsPerYear: nat := 12
  /** The percentage label is written as a literal; it is not computed from the other constants. */
  const RoiLabel: string := "12.5%"
  const Currency: string := "COP "

  /** The integer outputs of one calculator update. */
  datatype Quote = Quote(bricks: nat, total: nat, monthly: nat, annual: nat)

  /** The text written into the calculator's display fields. */
  datatype Display = Display(
    brickCount: string,
    totalAmount: string,
    monthlyRent: string,
    annualReturn: string,
    roiPercentage: string)

  function QuoteFor(bricks: nat): (q: Quote)
    ensures q.bricks == bricks
    ensures q.annual == MonthsPerYear * q.monthly
  {
    var monthly := bricks * MonthlyRentPerBrick;
    Quote(bricks, bricks * BrickPrice, monthly, monthly * MonthsPerYear)
  }

  /** Each output is the brick count times a fixed per-brick amount; the annual return per brick is 9804. */
  lemma QuotePerBrick(bricks: nat)
    ensures QuoteFor(bricks).total == 78400 * bricks
    ensures QuoteFor(bricks).monthly == 817 * bricks
    ensures QuoteFor(bricks).annual == 9804 * bricks
  {
  }

  /** More bricks never cost or earn less. */
  lemma QuoteMonotone(a: nat, b: nat)
    requires a <= b
    ensures QuoteFor(a).total <= QuoteFor(b).total
    ensures QuoteFor(a).monthly <= QuoteFor(b).monthly
    ensures QuoteFor(a).annual <= QuoteFor(b).annual
  {
  }

  /** Buying two lots costs and earns what one lot of the combined size does. */
  lemma QuoteAdditive(a: nat, b: nat)
    ensures QuoteFor(a + b).total == QuoteFor(a).total + QuoteFor(b).total
    ensures QuoteFor(a + b).monthly == QuoteFor(a).monthly + QuoteFor(b).monthly
    ensures QuoteFor(a + b).annual == QuoteFor(a).annual + QuoteFor(b).annual
  {
  }

  /** The brick count can be read back from the total. */
  function BricksForTotal(total: nat): (bricks: nat)
    ensures total % BrickPrice == 0 ==> QuoteFor(bricks).total == total
  {
    total / BrickPrice
  }

  lemma BricksForTotalInverts(bricks: nat)
    ensures BricksForTotal(QuoteFor(bricks).total) == bricks
  {
  }

  /**
   The fixed label agrees with the computed yield: for any positive count the annual return
   is at least 12.5 % and below 12.6 % of the total, so it reads 12.5 % to one decimal.
   */
  lemma RoiLabelMatchesYield(bricks: nat)
    requires bricks >= 1
    ensures 125 * QuoteFor(bricks).total <= QuoteFor(bricks).annual * 1000 < 126 * QuoteFor(bricks).total
  {
    QuotePerBrick(bricks);
  }

  /** `updateCalculator()` for a slider value of `bricks`. */
  function UpdateCalculator(bricks: nat): (d: Display)
    ensures d.roiPercentage == RoiLabel
    ensures d.brickCount == NatToString(bricks)
    ensures |d.monthlyRent| > |Currency| && d.monthlyRent[..|Currency|] == Currency
    ensures |d.annualReturn| > |Currency| && d.annualReturn[..|Currency|] == Currency
    ensures Grouped(d.totalAmount)
    ensures Grouped(d.monthlyRent[|Currency|..]) && Grouped(d.annualReturn[|Currency|..])
    ensures StripCommas(d.totalAmount) == NatToString(QuoteFor(bricks).total)
    ensures StripCommas(d.monthlyRent[|Currency|..]) == NatToString(QuoteFor(bricks).monthly)
    ensures StripCommas(d.annualReturn[|Currency|..]) == NatToString(QuoteFor(bricks).annual)
  {
    var q := QuoteFor(bricks);
    var monthly := FormatNumber(q.monthly);
    var annual := FormatNumber(q.annual);
    assert (Currency + monthly)[|Currency|..] == monthly;
    assert (Currency + annual)[|Currency|..] == annual;
    Display(
      NatToString(bricks),
      FormatNumber(q.total),
      Currency + monthly,
      Currency + annual,
      RoiLabel)
  }

  /** Reading the displayed amounts back recovers the exact quote. */
  lemma DisplayReadsBack(bricks: nat)
    ensures var d := UpdateCalculator(bricks);
      && DigitsValue(d.brickCount) == bricks
      && ParseGrouped(d.totalAmount) == 78400 * bricks
      && ParseGrouped(d.monthlyRent[|Currency|..]) == 817 * bricks
      && ParseGrouped(d.annualReturn[|Currency|..]) == 9804 * bricks
  {
    var q := QuoteFor(bricks);
    QuotePerBrick(bricks);
    ParseFormatted(q.total);
    ParseFormatted(q.monthly);
    ParseFormatted(q.annual);
    CurrencyAmount(FormatNumber(q.monthly));
    CurrencyAmount(FormatNumber(q.annual));
  }

  lemma CurrencyAmount(amount: string)
    ensures (Currency + amount)[|Currency|..] == amount
  {
  }

  /** The label does not depend on the brick count. */
  lemma RoiLabelConstant(a: nat, b: nat)
    ensures UpdateCalculator(a).roiPercentage == UpdateCalculator(b).roiPercentage == "12.5%"
  {
  }

  /** The smallest slider position. */
  lemma UpdateCalculatorAtOne()
    ensures UpdateCalculator(1).brickCount == "1"
    ensures UpdateCalculator(1).totalAmount == "78,400"
    ensures UpdateCalculator(1).monthlyRent == "COP 817"
    ensures UpdateCalculator(1).annualReturn == "COP 9,804"
    ensures UpdateCalculator(1).roiPercentage == "12.5%"
  {
    TotalAtOne();
    MonthlyAtOne();
    AnnualAtOne();
  }

  lemma TotalAtOne()
    ensures UpdateCalculator(1).totalAmount == "78,400"
  {
    calc {
      UpdateCalculator(1).totalAmount;
    == { ShownAmounts(1); }
      FormatNumber(78400);
    == { FormatNumberPriceExample(); }
      "78,400";
    }
  }

  lemma MonthlyAtOne()
    ensures UpdateCalculator(1).monthlyRent == "COP 817"
  {
    calc {
      UpdateCalculator(1).monthlyRent;
    == { ShownAmounts(1); }
      Currency + FormatNumber(817);
    == { FormatNumberSmallExample(); }
      Currency + "817";
    ==
      "COP 817";
    }
  }

  lemma AnnualAtOne()
    ensures UpdateCalculator(1).annualReturn == "COP 9,804"
  {
    calc {
      UpdateCalculator(1).annualReturn;
    == { ShownAmounts(1); }
      Currency + FormatNumber(9804);
    == { FormatNumberOf9804(); }
      Currency + "9,804";
    ==
      "COP 9,804";
    }
  }

  /** The fields of the display in terms of the per-brick amounts. */
  lemma ShownAmounts(bricks: nat)
    ensures UpdateCalculator(bricks) == Display(
      NatToString(bricks),
      FormatNumber(78400 * bricks),
      Currency + FormatNumber(817 * bricks),
      Currency + FormatNumber(9804 * bricks),
      RoiLabel)
  {
    QuotePerBrick(bricks);
  }

  lemma FormatNumberOf9804()
    ensures FormatNumber(9804) == "9,804"
  {
    NumeralOf9804();
    GroupOf9804();
  }

  lemma NumeralOf9804()
    ensures NatToString(9804) == "9804"
  {
    assert NatToString(98) == "98";
    assert NatToString(980) == "980";
  }

  lemma GroupOf9804()
    ensures Group("9804") == "9,804"
  {
    assert Group("9") == "9";
    GroupAppend("9", "804");
    assert "9" + "804" == "9804";
  }

  /** The largest slider position. */
  lemma UpdateCalculatorAtFiveHundred()
    ensures UpdateCalculator(500).brickCount == "500"
    ensures UpdateCalculator(500).totalAmount == "39,200,000"
    ensures UpdateCalculator(500).monthlyRent == "COP 408,500"
    ensures UpdateCalculator(500).annualReturn == "COP 4,902,000"
    ensures UpdateCalculator(500).roiPercentage == "12.5%"
  {
    CountAtFiveHundred();
    TotalAtFiveHundred();
    MonthlyAtFiveHundred();
    AnnualAtFiveHundred();
  }

  lemma CountAtFiveHundred()
    ensures UpdateCalculator(500).brickCount == "500"
  {
    calc {
      UpdateCalculator(500).brickCount;
    == { ShownAmounts(500); }
      NatToString(500);
    == { assert NatToString(50) == "50"; }
      "500";
    }
  }

  lemma TotalAtFiveHundred()
    ensures UpdateCalculator(500).totalAmount == "39,200,000"
  {
    calc {
      UpdateCalculator(500).totalAmount;
    == { ShownAmounts(500); }
      FormatNumber(39200000);
    == { FormatNumberLargeExample(); }
      "39,200,000";
    }
  }

  lemma MonthlyAtFiveHundred()
    ensures UpdateCalculator(500).monthlyRent == "COP 408,500"
  {
    calc {
      UpdateCalculator(500).monthlyRent;
    == { ShownAmounts(500); }
      Currency + FormatNumber(408500);
    == { FormatNumberOf408500(); }
      Currency + "408,500";
    ==
      "COP 408,500";
    }
  }

  lemma AnnualAtFiveHundred()
    ensures UpdateCalculator(500).annualReturn == "COP 4,902,000"
  {
    calc {
      UpdateCalculator(500).annualReturn;
    == { ShownAmounts(500); }
      Currency + FormatNumber(4902000);
    == { FormatNumberOf4902000(); }
      Currency + "4,902,000";
    ==
      "COP 4,902,000";
    }
  }

  lemma FormatNumberOf408500()
    ensures FormatNumber(408500) == "408,500"
  {
    NumeralOf408500();
    GroupOf408500();
  }

  lemma GroupOf408500()
    ensures Group("408500") == "408,500"
  {
    assert Group("408") == "408";
    GroupAppend("408", "500");
    assert "408" + "500" == "408500";
  }

  lemma NumeralOf408500()
    ensures NatToString(408500) == "408500"
  {
    assert NatToString(40) == "40";
    assert NatToString(408) == "408";
    assert NatToString(4085) == "4085";
    assert NatToString(40850) == "40850";
  }

  lemma FormatNumberOf4902000()
    ensures FormatNumber(4902000) == "4,902,000"
  {
    NumeralOf4902000();
    GroupOf4902000();
  }

  lemma NumeralOf4902000()
    ensures NatToString(4902000) == "4902000"
  {
    assert NatToString(49) == "49";
    assert NatToString(490) == "490";
    assert NatToString(4902) == "4902";
    assert NatToString(49020) == "49020";
    assert NatToString(490200) == "490200";
  }

  lemma GroupOf4902000()
    ensures Group("4902000") == "4,902,000"
  {
    GroupOf4902();
    GroupAppend("4902", "000");
    assert "4902" + "000" == "4902000";
  }

  lemma GroupOf4902()
    ensures Group("4902") == "4,902"
  {
    assert Group("4") == "4";
    GroupAppend("4", "902");
    assert "4" + "902" == "4902";
  }

}
