/**
 The colour theme: the page shows the theme held in the `data-theme` attribute, reads its
 first value from local storage, and a click on the toggle flips it and stores the result.
 */
module Theme {

  import opened Wrappers

  const Dark: string := "dark"
  const Light: string := "light"

  predicate IsKnown(t: string) {
    t == Dark || t == Light
  }

  /** The theme at page load: `localStorage.getItem('theme') || 'dark'`. A missing value and an empty one are both falsy. */
  function InitialTheme(saved: Option<string>): (t: string)
    ensures t != ""
    ensures saved.Some? && saved.value != "" ==> t == saved.value
    ensures saved.None? || saved.value == "" ==> t == Dark
  {
    match saved
    case Some(v) => if v != "" then v else Dark
    case None => Dark
  }

  /** The theme after a click: dark becomes light, anything else becomes dark. */
  function Toggle(current: string): (next: string)
    ensures IsKnown(next)
    ensures next != current
    ensures next == Light <==> current == Dark
  {
    if current == Dark then Light else Dark
  }

  /** Two clicks restore either of the two known themes. */
  lemma ToggleTwiceRestores(t: string)
    requires IsKnown(t)
    ensures Toggle(Toggle(t)) == t
  {
  }

  /** From any other stored value, two clicks end on light rather than where they started. */
  lemma ToggleTwiceFromUnknown(t: string)
    requires !IsKnown(t)
    ensures Toggle(Toggle(t)) == Light && Toggle(Toggle(t)) != t
  {
  }

  /** The attribute shown on the page and the value kept in local storage. */
  datatype Page = Page(shown: string, stored: Option<string>)

  function Load(stored: Option<string>): (p: Page)
    ensures p.stored == stored
    ensures p.shown != ""
    ensures stored.Some? && stored.value != "" ==> p.shown == stored.value
    ensures stored.None? || stored.value == "" ==> p.shown == Dark
  {
    Page(InitialTheme(stored), stored)
  }

  /** The toggle's click handler: flip the shown theme and store the new value. */
  function Click(p: Page): (q: Page)
    ensures IsKnown(q.shown) && q.shown != p.shown
    ensures q.stored == Some(q.shown)
    ensures q.shown == Light <==> p.shown == Dark
  {
    var next := Toggle(p.shown);
    Page(next, Some(next))
  }

  /** The choice survives a reload: loading from what a click stored shows the same page. */
  lemma ReloadAfterClick(p: Page)
    ensures Load(Click(p).stored) == Click(p)
  {
  }

  function Clicks(p: Page, n: nat): Page {
    if n == 0 then p else Click(Clicks(p, n - 1))
  }

  /** From a known theme, an even number of clicks shows it again and an odd number shows the other one. */
  lemma {:induction false} ClicksAlternate(p: Page, n: nat)
    requires IsKnown(p.shown)
    ensures Clicks(p, n).shown == (if n % 2 == 0 then p.shown else Toggle(p.shown))
  {
    if n > 0 {
      ClicksAlternate(p, n - 1);
      ToggleTwiceRestores(p.shown);
    }
  }

}
