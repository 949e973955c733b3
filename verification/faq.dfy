/**
 The FAQ accordion. Each item is expanded or collapsed; a click on an expanded item
 collapses it, and a click on a collapsed item collapses every item and then expands it.
 */
module Faq {

  import opened Wrappers

  predicate AtMostOneExpanded(items: seq<bool>) {
    forall i, j :: 0 <= i < |items| && 0 <= j < |items| && items[i] && items[j] ==> i == j
  }

  function AllCollapsed(n: nat): (items: seq<bool>)
    ensures |items| == n
    ensures forall i :: 0 <= i < n ==> !items[i]
  {
    seq(n, i => false)
  }

  /** The click handler of item `k`. */
  function Click(items: seq<bool>, k: nat): (r: seq<bool>)
    requires k < |items|
    ensures |r| == |items|
    ensures r[k] == !items[k]
    ensures items[k] ==> forall i :: 0 <= i < |items| && i != k ==> r[i] == items[i]
    ensures !items[k] ==> forall i :: 0 <= i < |items| && i != k ==> !r[i]
    ensures !items[k] ==> AtMostOneExpanded(r)
    ensures AtMostOneExpanded(items) ==> AtMostOneExpanded(r)
  {
    if items[k] then items[k := false]
    else seq(|items|, i => i == k)
  }

  /** The expanded item, if any: the lowest index whose flag is set. */
  function Expanded(items: seq<bool>): (o: Option<nat>)
    ensures o.Some? ==> o.value < |items| && items[o.value]
    ensures o.None? <==> forall i :: 0 <= i < |items| ==> !items[i]
  {
    ExpandedFrom(items, 0)
  }

  function ExpandedFrom(items: seq<bool>, j: nat): (o: Option<nat>)
    requires j <= |items|
    ensures o.Some? ==> j <= o.value < |items| && items[o.value]
    ensures o.None? <==> forall i :: j <= i < |items| ==> !items[i]
    decreases |items| - j
  {
    if j == |items| then None
    else if items[j] then Some(j)
    else ExpandedFrom(items, j + 1)
  }

  lemma ExpandedUnique(items: seq<bool>, k: nat)
    requires AtMostOneExpanded(items) && k < |items| && items[k]
    ensures Expanded(items) == Some(k)
  {
  }

  /** The accordion seen as "which item is open": a click on the open item closes it, any other click opens that item. */
  function ClickOpen(open: Option<nat>, k: nat): Option<nat> {
    if open == Some(k) then None else Some(k)
  }

  /** The click handler on the flags implements the click on the open item. */
  lemma ClickRefines(items: seq<bool>, k: nat)
    requires AtMostOneExpanded(items) && k < |items|
    ensures Expanded(Click(items, k)) == ClickOpen(Expanded(items), k)
  {
    var r := Click(items, k);
    if items[k] {
      ExpandedUnique(items, k);
      assert forall i :: 0 <= i < |r| ==> !r[i];
    } else {
      ExpandedUnique(r, k);
    }
  }

  /** A sequence of clicks, each on one of the items. */
  function ClickAll(items: seq<bool>, clicks: seq<nat>): (r: seq<bool>)
    requires forall i :: 0 <= i < |clicks| ==> clicks[i] < |items|
    ensures |r| == |items|
    decreases |clicks|
  {
    if |clicks| == 0 then items
    else ClickAll(Click(items, clicks[0]), clicks[1..])
  }

  function ClickOpenAll(open: Option<nat>, clicks: seq<nat>): Option<nat>
    decreases |clicks|
  {
    if |clicks| == 0 then open else ClickOpenAll(ClickOpen(open, clicks[0]), clicks[1..])
  }

  /** Any sequence of clicks keeps at most one item expanded, and the expanded item is the one the abstract accordion has open. */
  lemma {:induction false} ClickAllKeepsOneOpen(items: seq<bool>, clicks: seq<nat>)
    requires AtMostOneExpanded(items)
    requires forall i :: 0 <= i < |clicks| ==> clicks[i] < |items|
    ensures AtMostOneExpanded(ClickAll(items, clicks))
    ensures Expanded(ClickAll(items, clicks)) == ClickOpenAll(Expanded(items), clicks)
    decreases |clicks|
  {
    if |clicks| > 0 {
      var next := Click(items, clicks[0]);
      ClickRefines(items, clicks[0]);
      ClickAllKeepsOneOpen(next, clicks[1..]);
    }
  }

  /** The page starts with every item collapsed; from there the flags track the abstract accordion started closed. */
  lemma ClicksFromCollapsed(n: nat, clicks: seq<nat>)
    requires forall i :: 0 <= i < |clicks| ==> clicks[i] < n
    ensures AtMostOneExpanded(ClickAll(AllCollapsed(n), clicks))
    ensures Expanded(ClickAll(AllCollapsed(n), clicks)) == ClickOpenAll(None, clicks)
  {
    ClickAllKeepsOneOpen(AllCollapsed(n), clicks);
  }

}
