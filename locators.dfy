/**
 * What a Playwright locator does with a list of elements: `filter` keeps the elements that
 * pass a test, in document order, and `click` acts only when exactly one element is left.
 * With none left the click waits until its timeout; with several it fails strict mode.
 */
module Locators {
  import opened Wrappers

  /** The outcome of `click()` on a locator. */
  datatype ClickOutcome<T> =
    | Clicked(target: T)
    | NoElement
    | StrictModeViolation(count: nat)

  /** The positions of the elements that pass `keep`, in document order. */
  function IndicesWhere<T>(items: seq<T>, keep: T -> bool): (r: seq<nat>)
    ensures |r| <= |items|
  {
    IndicesBefore(items, keep, |items|)
  }

  /**
   * Filtering keeps the position of every element that passes and of no other, each once, in
   * increasing order; it keeps nothing exactly when nothing passes.
   */
  lemma IndicesWhereMeaning<T>(items: seq<T>, keep: T -> bool)
    ensures forall k | 0 <= k < |IndicesWhere(items, keep)| ::
              IndicesWhere(items, keep)[k] < |items| && keep(items[IndicesWhere(items, keep)[k]])
    ensures forall i | 0 <= i < |items| && keep(items[i]) :: i in IndicesWhere(items, keep)
    ensures forall i, j | 0 <= i < j < |IndicesWhere(items, keep)| ::
              IndicesWhere(items, keep)[i] < IndicesWhere(items, keep)[j]
    ensures IndicesWhere(items, keep) == [] <==> forall i | 0 <= i < |items| :: !keep(items[i])
  {
    var r := IndicesWhere(items, keep);
    IndicesBeforeMeaning(items, keep, |items|);
    assert r != [] ==> keep(items[r[0]]);
  }

  /**
   * The positions below `n` of the elements that pass `keep`, in document order: what a
   * loop over the first `n` elements has collected.
   */
  function IndicesBefore<T>(items: seq<T>, keep: T -> bool, n: nat): (r: seq<nat>)
    requires n <= |items|
    ensures |r| <= n
  {
    if n == 0 then []
    else
      var prev := IndicesBefore(items, keep, n - 1);
      if keep(items[n - 1]) then prev + [n - 1] else prev
  }

  /** What the loop has collected are the positions below `n` that pass `keep`, each once, in increasing order. */
  lemma {:induction false} IndicesBeforeMeaning<T>(items: seq<T>, keep: T -> bool, n: nat)
    requires n <= |items|
    ensures forall k | 0 <= k < |IndicesBefore(items, keep, n)| ::
              IndicesBefore(items, keep, n)[k] < n && keep(items[IndicesBefore(items, keep, n)[k]])
    ensures forall i | 0 <= i < n && keep(items[i]) :: i in IndicesBefore(items, keep, n)
    ensures forall i, j | 0 <= i < j < |IndicesBefore(items, keep, n)| ::
              IndicesBefore(items, keep, n)[i] < IndicesBefore(items, keep, n)[j]
  {
    if n > 0 {
      IndicesBeforeMeaning(items, keep, n - 1);
      var prev := IndicesBefore(items, keep, n - 1);
      var r := IndicesBefore(items, keep, n);
      assert r == if keep(items[n - 1]) then prev + [n - 1] else prev;
      assert forall k | 0 <= k < |prev| :: r[k] == prev[k];
      assert forall k | 0 <= k < |prev| :: prev[k] < n - 1 && keep(items[prev[k]]);
      assert forall k | 0 <= k < |r| :: r[k] < n && keep(items[r[k]]);
    }
  }

  /** Where no element passes, nothing is collected. */
  lemma {:induction false} IndicesBeforeNone<T>(items: seq<T>, keep: T -> bool, n: nat)
    requires n <= |items|
    requires forall i | 0 <= i < n :: !keep(items[i])
    ensures IndicesBefore(items, keep, n) == []
  {
    if n > 0 {
      IndicesBeforeNone(items, keep, n - 1);
    }
  }

  /** Looking at more elements never collects fewer positions. */
  lemma {:induction false} IndicesBeforeGrows<T>(items: seq<T>, keep: T -> bool, m: nat, n: nat)
    requires m <= n <= |items|
    ensures |IndicesBefore(items, keep, m)| <= |IndicesBefore(items, keep, n)|
    decreases n - m
  {
    if m < n {
      IndicesBeforeGrows(items, keep, m, n - 1);
    }
  }

  /** Two elements that pass make two positions. */
  lemma TwoMatches<T>(items: seq<T>, keep: T -> bool, i: nat, j: nat)
    requires i < j < |items| && keep(items[i]) && keep(items[j])
    ensures |IndicesWhere(items, keep)| >= 2
  {
    var r := IndicesWhere(items, keep);
    IndicesWhereMeaning(items, keep);
    assert i in r && j in r;
  }

  /** `click()` on what is left after filtering. */
  function Click<T>(matches: seq<T>): (r: ClickOutcome<T>)
    ensures r.Clicked? <==> |matches| == 1
    ensures r.NoElement? <==> |matches| == 0
    ensures r.Clicked? ==> r.target == matches[0]
    ensures r.StrictModeViolation? ==> r.count == |matches| && r.count > 1
  {
    if |matches| == 0 then NoElement
    else if |matches| == 1 then Clicked(matches[0])
    else StrictModeViolation(|matches|)
  }

  /**
   * `click()` on a filtered locator: it finds no element exactly when no element passes, and
   * the element it clicks passes.
   */
  lemma ClickWhereOutcome<T>(items: seq<T>, keep: T -> bool)
    ensures var r := Click(IndicesWhere(items, keep));
            && (r.NoElement? <==> forall i | 0 <= i < |items| :: !keep(items[i]))
            && (r.Clicked? ==> r.target < |items| && keep(items[r.target]))
  {
    IndicesWhereMeaning(items, keep);
  }

  /** A strictly increasing sequence that holds `x` and nothing else is `[x]`. */
  lemma OnlyMatch(r: seq<nat>, x: nat)
    requires x in r
    requires forall k | 0 <= k < |r| :: r[k] == x
    requires forall i, j | 0 <= i < j < |r| :: r[i] < r[j]
    ensures r == [x]
  {
    assert r[0] == r[|r| - 1];
  }

  /** Clicking the filtered locator reaches element `x` exactly when `x` is the only one to pass. */
  lemma {:induction false} ClickWhere<T>(items: seq<T>, keep: T -> bool, x: nat)
    requires x < |items|
    ensures Click(IndicesWhere(items, keep)) == Clicked(x)
        <==> keep(items[x]) && forall i | 0 <= i < |items| && i != x :: !keep(items[i])
  {
    var r := IndicesWhere(items, keep);
    IndicesWhereMeaning(items, keep);
    if keep(items[x]) && forall i | 0 <= i < |items| && i != x :: !keep(items[i]) {
      OnlyMatch(r, x);
    }
  }

  /** The position of the first element that passes `keep`, if any: a scan that stops at the first hit. */
  function FirstWhere<T>(items: seq<T>, keep: T -> bool): (r: Option<nat>)
    ensures r.Some? ==> r.value < |items|
  {
    FirstFrom(items, keep, 0)
  }

  function FirstFrom<T>(items: seq<T>, keep: T -> bool, start: nat): (r: Option<nat>)
    requires start <= |items|
    ensures r.Some? ==> start <= r.value < |items|
    decreases |items| - start
  {
    if start == |items| then None
    else if keep(items[start]) then Some(start)
    else FirstFrom(items, keep, start + 1)
  }

  /** What the scan finds passes `keep` and nothing before it does; it finds nothing exactly when nothing passes. */
  lemma {:induction false} FirstFromMeaning<T>(items: seq<T>, keep: T -> bool, start: nat)
    requires start <= |items|
    ensures var r := FirstFrom(items, keep, start);
            && (r.Some? ==> start <= r.value < |items| && keep(items[r.value]))
            && (r.Some? ==> forall j | start <= j < r.value :: !keep(items[j]))
            && (r.None? <==> forall i | start <= i < |items| :: !keep(items[i]))
    decreases |items| - start
  {
    if start < |items| && !keep(items[start]) {
      FirstFromMeaning(items, keep, start + 1);
    }
  }

  lemma FirstWhereMeaning<T>(items: seq<T>, keep: T -> bool)
    ensures var r := FirstWhere(items, keep);
            && (r.Some? ==> r.value < |items| && keep(items[r.value]))
            && (r.Some? ==> forall j | 0 <= j < r.value :: !keep(items[j]))
            && (r.None? <==> forall i | 0 <= i < |items| :: !keep(items[i]))
  {
    FirstFromMeaning(items, keep, 0);
  }
}
