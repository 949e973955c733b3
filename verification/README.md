# Brick investment landing page: the logic behind the page script

This project models the parts of the landing page's script (`main.js`) that decide what the
page shows. Each part is written as pure Dafny functions over immutable data, with proofs
about them. These are the parts:

- **`formatNumber(num)`** (module `NumberFormat`). This is `num.toString()` followed by the
  global replace `/\B(?=(\d{3})+(?!\d))/g → ','`.
  - `Decimal` models `toString` for non-negative integers.
  - `SeparatorRegex` models the replace on an arbitrary string, position by position: `\B`,
    the look-ahead of one or more three-digit groups with no digit after them, and a comma
    inserted at each matching position.
  - An independent reference grouping, `NumberFormat.Group`, puts a comma before every
    third digit counting from the right. On digit strings it is proved to give the same
    result as the replace.
- **The calculator update** (module `Calculator`). It covers the integer part of
  `updateCalculator()`: price 78,400 and monthly rent 817 per brick, annual return equal to
  twelve times the monthly rent, and the fixed label `12.5%`. It also covers the text
  written into the five display fields: the brick count, the total without a prefix, and
  the monthly and annual amounts prefixed with `COP `.
- **The colour theme** (module `Theme`). The initial theme is the stored value, or `dark`
  when that is missing or empty. A click flips `dark` to `light` and anything else to
  `dark`, then stores the result.
- **The FAQ accordion** (module `Faq`).
  - A click on an expanded item collapses it.
  - A click on a collapsed item collapses every item and expands that one.
  - An item counts as expanded when its left border has the accent colour. The model
    represents this as one boolean per item.
- **The navigation bar's scroll handler** (module `NavScroll`).
  - The `scrolled` class is present exactly when the scroll position is past 100.
  - On viewports wider than 768 the bar is hidden exactly when the reader moved down and is
    past 500. Otherwise it is shown.
  - On narrower viewports the transform is left as it was.
  - The last position is remembered.
- **The animate-once guard** (module `AnimateOnce`). `animateValue` and `animateCountUp`
  both test and set the same per-element `animated` marker. `animateValue` also ignores a
  missing element. The model records whether a call got past the guard. What runs after
  the guard is not modelled; for example, `animateValue` on a text without a letter marks
  the element and starts nothing.

## Model

| member | source | states |
|---|---|---|
| Decimal.NatToString | main.js:157 | `toString` of a non-negative integer yields a canonical decimal numeral (digits only, no leading zero) whose value is the number |
| Decimal.CanonicalRoundTrip | main.js:157 | every canonical numeral is the `toString` of its own value, so printing is a bijection onto canonical numerals |
| Decimal.NatToStringInjective | main.js:157 | distinct numbers print differently, in both directions |
| Decimal.LengthBound | main.js:157 | a numeral has at most k digits exactly when the number is below 10^k |
| SeparatorRegex.GroupsAheadMeansSomeCount | main.js:157 | the recursive reading of the look-ahead `(?=(\d{3})+(?!\d))` holds exactly when some positive number of whole three-digit groups follows, with no digit after them |
| SeparatorRegex.MatchesInDigits | main.js:157 | on a digit string the pattern matches exactly at the interior positions followed by a multiple of three digits |
| SeparatorRegex.ReplaceOnlyInsertsCommas | main.js:157 | on any input string, removing commas from the replacement output gives the input with its commas removed: the replace only inserts commas |
| SeparatorRegex.InsertSeparators | main.js:157 | the global replace, with `\B` and the look-ahead tested at every position of the input from its start to its end: removing commas from its output gives the input with its commas removed, so it keeps every other character in order and adds only commas |
| SeparatorRegex.CopyWithoutMatches | main.js:157 | where the pattern matches nowhere, the replace returns its input unchanged |
| NumberFormat.Group | main.js:156-158 | reference grouping: removing its commas gives the digits back, and a non-empty result has the grouped shape |
| NumberFormat.FormatNumber | main.js:156-158 | `formatNumber(n)` has the grouped shape, removing its commas gives `n.toString()`, and it equals the reference grouping of that numeral |
| NumberFormat.RegexGroupsDigits | main.js:157 | on every digit string the regular-expression replace equals the reference grouping |
| NumberFormat.GroupedUnique | main.js:157 | a string of the grouped shape is determined by its digits: it is the reference grouping of what remains after removing its commas |
| NumberFormat.FormatNumberCharacterised | main.js:156-158 | `formatNumber(n) == t` exactly when t has the grouped shape and removing its commas gives `n.toString()` |
| NumberFormat.FormatNumberGroups | main.js:156-158 | the output has a leading group of one to three digits, then groups of a comma and three digits, and neither starts nor ends with a comma |
| NumberFormat.SmallNumbersUnchanged | main.js:156-158 | the output equals the plain numeral exactly when the number is below 1000 |
| NumberFormat.ParseFormatted | main.js:156-158 | removing the commas and reading the digits gives the original number back |
| NumberFormat.FormatIdempotent | main.js:156-158 | formatting the number read back from a formatted number reproduces the same text |
| NumberFormat.FormatNumberInjective | main.js:156-158 | distinct numbers are formatted differently, in both directions |
| NumberFormat.FormatNumberSmallExample | main.js:146 | the monthly rent of one brick is shown as `817` |
| NumberFormat.FormatNumberPriceExample | main.js:756 | the brick price is shown as `78,400` |
| NumberFormat.FormatNumberLargeExample | main.js:145 | the total for 500 bricks is shown as `39,200,000` |
| Calculator.QuoteFor | main.js:137-140 | the quote keeps the brick count, and the annual return is twelve times the monthly rent |
| Calculator.QuotePerBrick | main.js:122-140 | the total, monthly and annual amounts are 78,400, 817 and 9,804 times the brick count |
| Calculator.QuoteMonotone | main.js:137-140 | more bricks never give a smaller total, monthly rent or annual return |
| Calculator.QuoteAdditive | main.js:137-140 | every amount for a + b bricks is the sum of the amounts for a and for b |
| Calculator.BricksForTotalInverts | main.js:138 | the brick count is recovered from the total by dividing by the price |
| Calculator.RoiLabelMatchesYield | main.js:122-148 | for any positive count the annual return is at least 12.5 % and below 12.6 % of the total, which agrees with the fixed label |
| Calculator.UpdateCalculator | main.js:136-149 | the count field is the plain numeral; the total is grouped with no prefix; the monthly and annual fields are `COP ` plus a grouped amount; removing the commas from each amount gives the numeral of the matching product; the label is `12.5%` |
| Calculator.DisplayReadsBack | main.js:143-147 | reading the displayed fields back gives the count and 78,400, 817 and 9,804 times the count |
| Calculator.RoiLabelConstant | main.js:148 | the label is `12.5%` whatever the count |
| Calculator.ShownAmounts | main.js:143-148 | the displayed amounts are the formatted products of the count with the per-brick constants |
| Calculator.UpdateCalculatorAtOne | main.js:136-148 | one brick shows `1`, `78,400`, `COP 817`, `COP 9,804` and `12.5%` |
| Calculator.UpdateCalculatorAtFiveHundred | main.js:136-148 | 500 bricks show `500`, `39,200,000`, `COP 408,500`, `COP 4,902,000` and `12.5%` |
| Theme.InitialTheme | main.js:18-19 | the stored theme is used when present and non-empty, otherwise `dark`; the result is never empty |
| Theme.Toggle | main.js:21-25 | the new theme is always `dark` or `light` and differs from the current one; it is `light` exactly when the current one is `dark` |
| Theme.ToggleTwiceRestores | main.js:22-23 | two clicks restore either known theme |
| Theme.ToggleTwiceFromUnknown | main.js:22-23 | from any other attribute value, two clicks end on `light`, not where they started |
| Theme.Load | main.js:18-19 | loading shows the stored value when it is present and non-empty, and `dark` when it is missing or empty |
| Theme.Click | main.js:21-25 | a click shows `light` exactly when the page showed `dark` (so any other value becomes `dark`), and stores exactly the shown theme |
| Theme.ReloadAfterClick | main.js:18-25 | reloading after a click shows the theme the click chose |
| Theme.ClicksAlternate | main.js:21-25 | from a known theme an even number of clicks shows it again and an odd number shows the other |
| Faq.AllCollapsed | main.js:861-864 | the initial state has one collapsed flag per item |
| Faq.Click | main.js:866-886 | the clicked item's flag flips; collapsing leaves the other items alone; expanding collapses every other item; the at-most-one-expanded invariant is kept |
| Faq.Expanded | main.js:868 | the expanded item found is in range and expanded, and none is found exactly when every item is collapsed |
| Faq.ExpandedUnique | main.js:868 | with at most one expanded item, that item is the one found |
| Faq.ClickRefines | main.js:866-886 | on the flags, the handler implements "close the open item if it was clicked, otherwise open the clicked item" |
| Faq.ClickAllKeepsOneOpen | main.js:863-886 | over any sequence of clicks at most one item stays expanded, and it is the one the abstract accordion has open |
| Faq.ClicksFromCollapsed | main.js:861-886 | starting from the collapsed page, any clicks leave at most one item expanded, matching the abstract accordion started closed |
| NavScroll.OnScroll | main.js:237-255 | `scrolled` exactly past 100; on desktop, hidden exactly when moving down past 500; on mobile the transform is unchanged; the position is remembered |
| NavScroll.DesktopHiddenIsScrolled | main.js:238-251 | on desktop a hidden bar always carries the `scrolled` class |
| NavScroll.DesktopForgetsFlags | main.js:245-254 | on desktop the result depends only on the remembered position, not on the previous class or transform |
| NavScroll.ScrollingUpShows | main.js:245-251 | on desktop scrolling up, or staying put, shows the bar |
| NavScroll.RepeatedEventShows | main.js:238-254 | repeating an event at the same position shows the bar on desktop and leaves the class as it was |
| NavScroll.ShownNearTop | main.js:245-251 | while no event goes past 500, a shown bar stays shown on any viewport |
| NavScroll.ShownFromLoad | main.js:235-255 | from page load the bar stays shown until some event goes past 500, and carries the `scrolled` class only if the last event went past 100 |
| NavScroll.ReplayReflectsLastEvent | main.js:235-255 | after any non-empty sequence of events, the class and the remembered position follow the last event, and on desktop the bar is hidden exactly when that event moved down past 500 from the position before it |
| AnimateOnce.MarkOnce | main.js:197-198 | the call gets past the guard exactly when the element was not marked, and afterwards it is marked |
| AnimateOnce.AnimateValue | main.js:196-198 | a missing element changes nothing and does not get past the guard; otherwise the call gets past the guard exactly when the element was not marked, and the element ends up marked |
| AnimateOnce.AnimateCountUp | main.js:397-399 | the call gets past the guard exactly when the element was not marked, and the element ends up marked |
| AnimateOnce.SecondCallIsNoOp | main.js:196-198 | after either entry point has run on an element, a second call through either one changes nothing and stops at the guard |
| AnimateOnce.Apply | main.js:196-198 | a call of either entry point gets past the guard exactly when it names an element that was not marked, and marks the element it names |
| AnimateOnce.RunStartsEachOnce | main.js:196-198 | over any sequence of calls mixing `animateValue` and `animateCountUp`, the elements that get past the guard have no duplicates, were not marked beforehand, and are exactly the called elements that were not marked; every called element ends up marked |

## Left out

- The future value (`total * 1.43`, rounded, main.js:141,149) is left out because it is floating-point arithmetic.
- The slider track width (main.js:152-153) is left out for the same reason.
- The custom cursor, the floating bricks, the parallax, and every other position or opacity computed in floating point are left out.
- `parseInt(brickSlider.value)` is not modelled. The count is a natural number given as input, and the slider's range of 1 to 500 is not imposed.
- Calculator.QuoteFor: the model computes with exact integers for every count. The program multiplies IEEE doubles, which are exact only below 2^53. So the model agrees with the program only while every product stays below 2^53. That holds for any count up to about 1.1·10^11, which includes the slider's 1 to 500.
- Calculator.UpdateCalculator: it has the same range, up to 2^53 (`Number.MAX_SAFE_INTEGER` + 1), for the reasons given under NumberFormat.FormatNumber below. Above 2^53 the program would show a rounded product, printed as described there.
- NumberFormat.FormatNumber: `Number.prototype.toString` is modelled as the exact decimal numeral of a non-negative integer. That is what the program prints for integers up to 2^53 (`Number.MAX_SAFE_INTEGER` + 1), so the model agrees with the program only on that range. It covers every value the calculator shows for slider counts of 1 to 500. Between 2^53 and 1e21, `toString` prints the shortest digits that identify the double, padded with zeros; for example 2^60 prints as `1152921504606847000` and not its exact value. From 1e21 it uses exponent notation, and the regex can then put a comma among the fraction digits: 1.2345e21 prints as `1.2345e+21` and is shown as `1.2,345e+21`. Negative numbers and fractions are left out as well.
- Timers, `requestAnimationFrame`, intersection observers, debouncing and `Math.random` are left out. They only decide when the modelled handlers run, or feed the decorative animations.
- The frames of the count-up and metric animations are left out. So is the text parsing in `animateValue` after its guard. Only the guard at main.js:196-198 and main.js:397-399 is modelled.
- `localStorage` and the DOM are state passed in and returned: the stored theme is an `Option<string>`, and each FAQ item is one boolean. Styles, class lists and event wiring are not modelled.
- AnimateOnce.AnimateCountUp: a null element is not modelled. The source has no null guard there and would throw, so the element is always present in the model.
- The FAQ hover handlers (main.js:890-902) are left out. They change the transform and opacity only when an item is not expanded, and never change the border colour that decides "expanded".
- NavScroll.OnScroll: the scroll position is an integer. In the source `scrollY` can be fractional. The comparisons are the same for fractional values, but the model does not state that.
- NavScroll.Init: the bar is taken to start with no `scrolled` class and no transform, because the initial markup is not part of this model.
- The purchase flow, the purchase modal and the sold-bricks counter are left out. They are outside the modelled core, apart from their use of `formatNumber`.
