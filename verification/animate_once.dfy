/**
 The animate-once guard shared by the metric animation and the count-up animation: both
 test and set the same per-element marker, so each element gets past the guard at most once.
 What happens after the guard (parsing the text, running the timer) is not modelled.
 */
module AnimateOnce {

  import opened Wrappers

  /** Identifies a display element of the page. */
  type ElementId = nat

  /**
   The marker set after a call, and whether the call got past the guard. Getting past it
   does not by itself mean an animation runs: `animateValue` may still stop after reading
   the element's text.
   */
  datatype Guarded = Guarded(animated: set<ElementId>, passed: bool)

  /** Return early if the element is already marked; otherwise mark it and go on. */
  function MarkOnce(animated: set<ElementId>, id: ElementId): (g: Guarded)
    ensures g.passed <==> id !in animated
    ensures g.animated == animated + {id}
  {
    if id in animated then Guarded(animated, false)
    else Guarded(animated + {id}, true)
  }

  /** `animateValue(element)`: a missing element is ignored, as is one already animated. */
  function AnimateValue(animated: set<ElementId>, element: Option<ElementId>): (g: Guarded)
    ensures element.None? ==> g.animated == animated && !g.passed
    ensures element.Some? ==> (g.passed <==> element.value !in animated)
    ensures element.Some? ==> g.animated == animated + {element.value}
  {
    match element
    case None => Guarded(animated, false)
    case Some(id) => MarkOnce(animated, id)
  }

  /** `animateCountUp(element)`: the element is always present here. */
  function AnimateCountUp(animated: set<ElementId>, id: ElementId): (g: Guarded)
    ensures g.passed <==> id !in animated
    ensures g.animated == animated + {id}
  {
    MarkOnce(animated, id)
  }

  /** A second call on the same element, through either entry point, changes nothing. */
  lemma SecondCallIsNoOp(animated: set<ElementId>, id: ElementId)
    ensures var once := AnimateCountUp(animated, id).animated;
      && AnimateCountUp(once, id) == Guarded(once, false)
      && AnimateValue(once, Some(id)) == Guarded(once, false)
    ensures var once := AnimateValue(animated, Some(id)).animated;
      && AnimateCountUp(once, id) == Guarded(once, false)
      && AnimateValue(once, Some(id)) == Guarded(once, false)
  {
  }

  /** One call of either entry point; both test and set the same marker. */
  datatype Call = Value(element: Option<ElementId>) | CountUp(id: ElementId)

  /** The element a call is about, if any. */
  function Target(c: Call): Option<ElementId> {
    match c
    case Value(element) => element
    case CountUp(id) => Some(id)
  }

  function AsSet(o: Option<ElementId>): set<ElementId> {
    match o
    case None => {}
    case Some(id) => {id}
  }

  function Apply(animated: set<ElementId>, c: Call): (g: Guarded)
    ensures g.passed <==> Target(c).Some? && Target(c).value !in animated
    ensures g.animated == animated + AsSet(Target(c))
  {
    match c
    case Value(element) => AnimateValue(animated, element)
    case CountUp(id) => AnimateCountUp(animated, id)
  }

  /** The elements named by a sequence of calls. */
  function Targets(calls: seq<Call>): set<ElementId>
    decreases |calls|
  {
    if |calls| == 0 then {} else AsSet(Target(calls[0])) + Targets(calls[1..])
  }

  /** The marker set after a sequence of calls, and the elements that got past the guard, in order. */
  datatype Run = Run(animated: set<ElementId>, passed: seq<ElementId>)

  function RunAll(animated: set<ElementId>, calls: seq<Call>): Run
    decreases |calls|
  {
    if |calls| == 0 then Run(animated, [])
    else
      var g := Apply(animated, calls[0]);
      var rest := RunAll(g.animated, calls[1..]);
      Run(rest.animated, if g.passed then [Target(calls[0]).value] + rest.passed else rest.passed)
  }

  predicate NoDuplicates(s: seq<ElementId>) {
    forall i, j :: 0 <= i < j < |s| ==> s[i] != s[j]
  }

  /** The elements occurring in a sequence. */
  function Elements(s: seq<ElementId>): set<ElementId> {
    set i | 0 <= i < |s| :: s[i]
  }

  lemma ElementsCons(x: ElementId, s: seq<ElementId>)
    ensures Elements([x] + s) == {x} + Elements(s)
  {
    var t := [x] + s;
    forall y | y in Elements(t) ensures y in {x} + Elements(s) {
      var i :| 0 <= i < |t| && t[i] == y;
      if i > 0 { assert s[i - 1] == y; }
    }
    forall y | y in Elements(s) ensures y in Elements(t) {
      var i :| 0 <= i < |s| && s[i] == y;
      assert t[i + 1] == y;
    }
    assert t[0] == x;
  }

  /**
   Over any sequence of calls, mixing both entry points, each element gets past the guard at
   most once: those elements are distinct, were not marked beforehand, and are exactly the
   called elements not marked beforehand; afterwards every called element is marked.
   */
  lemma {:induction false} RunStartsEachOnce(animated: set<ElementId>, calls: seq<Call>)
    ensures var r := RunAll(animated, calls);
      && NoDuplicates(r.passed)
      && (forall i :: 0 <= i < |r.passed| ==> r.passed[i] !in animated)
      && Elements(r.passed) == Targets(calls) - animated
      && r.animated == animated + Targets(calls)
    decreases |calls|
  {
    if |calls| > 0 {
      var g := Apply(animated, calls[0]);
      RunStartsEachOnce(g.animated, calls[1..]);
      if g.passed {
        ElementsCons(Target(calls[0]).value, RunAll(g.animated, calls[1..]).passed);
      }
    }
  }

}
