/**
 * The cart test that runs in a browser context restored from saved session storage: it
 * reads the cart badge, adds the wanted products until as many cards as wanted products
 * have been added, and reads the badge again.
 */
module SessionCart {
  import opened Wrappers
  import opened Text
  import opened Numbers
  import opened Locators
  import opened Cards

  // ---------------------------------------------------------------------------------------
  // Reading the cart badge
  // ---------------------------------------------------------------------------------------

  /** `cartCount?.trim() || '0'`: the trimmed text, or "0" when it is missing or blank. */
  function CountText(text: Option<string>): (r: string)
    ensures r != []
    ensures text.Some? && !AllSpace(text.value) ==> r == Trim(text.value)
    ensures text.None? || AllSpace(text.value) ==> r == "0"
  {
    if text.None? then "0"
    else
      var t := Trim(text.value);
      if t == [] then "0" else t
  }

  /** `parseInt(cartCount?.trim() || '0')`; `None` is `NaN`. A missing or blank badge reads as 0. */
  function CartCount(text: Option<string>): (r: Option<int>)
    ensures text.None? || AllSpace(text.value) ==> r == Some(0)
  {
    assert "0" == IntToString(0) by {
      NatToStringIsDecimal(0);
    }
    ParseIntToString(0);
    ParseInt(CountText(text))
  }

  /** A badge that shows a number, padded with white space, reads as that number. */
  lemma CartCountOfNumber(lead: string, n: int, trail: string)
    requires AllSpace(lead) && AllSpace(trail)
    ensures CartCount(Some(lead + IntToString(n) + trail)) == Some(n)
  {
    IntToStringTrimmed(n);
    TrimPadded(lead, IntToString(n), trail);
    ParseIntToString(n);
  }

  /** A badge that shows just a number reads as that number. */
  lemma CartCountOfInt(n: int)
    ensures CartCount(Some(IntToString(n))) == Some(n)
  {
    IntToStringTrimmed(n);
    ParseIntToString(n);
  }

  /** A badge whose text starts with a letter reads as `NaN`. */
  lemma CartCountOfWord(lead: string, word: string, trail: string)
    requires AllSpace(lead) && AllSpace(trail) && Trimmed(word) && word != []
    requires 'A' <= word[0] <= 'Z' || 'a' <= word[0] <= 'z'
    ensures CartCount(Some(lead + word + trail)) == None
  {
    CountTextOfPadded(lead, word, trail);
    ParseIntOfWord(word);
  }

  /** White space around a non-blank text is dropped. */
  lemma CountTextOfPadded(lead: string, s: string, trail: string)
    requires AllSpace(lead) && AllSpace(trail) && Trimmed(s) && s != []
    ensures CountText(Some(lead + s + trail)) == s
  {
    TrimPadded(lead, s, trail);
  }

  /** Text that starts with a letter is not a number. */
  lemma ParseIntOfWord(word: string)
    requires word != [] && ('A' <= word[0] <= 'Z' || 'a' <= word[0] <= 'z')
    ensures ParseInt(word) == None
  {
    assert !IsSpace(word[0]) && !IsDigit(word[0]) && word[0] != '-' && word[0] != '+';
    assert TrimStart(word) == word;
    assert SignFree(word) == word;
  }

  // ---------------------------------------------------------------------------------------
  // Adding the products
  // ---------------------------------------------------------------------------------------

  /**
   * The card loop with its early exit: a card whose trimmed name is wanted is clicked and
   * counted, and the loop stops once the count reaches the number of wanted products.
   * `inspected` is how many cards had their name read.
   */
  method AddUntilAll(names: seq<Option<string>>, wanted: seq<string>) returns (addedCount: nat, clicked: seq<nat>, inspected: nat)
    ensures inspected <= |names|
    ensures clicked == IndicesBefore(names, WantedFilter(wanted), inspected)
    ensures addedCount == |clicked|
    ensures addedCount <= |wanted|
    ensures inspected < |names| ==> addedCount == |wanted|
    ensures wanted != [] ==> forall p | 0 <= p < inspected :: |IndicesBefore(names, WantedFilter(wanted), p)| < |wanted|
    ensures addedCount == |wanted| <==> |IndicesBefore(names, WantedFilter(wanted), |names|)| >= |wanted|
  {
    addedCount, clicked, inspected := AddUntil(names, WantedFilter(wanted), |wanted|);
    if wanted == [] {
      IndicesBeforeNone(names, WantedFilter(wanted), inspected);
    }
  }

  /**
   * The same loop for any test of a card: `keep` picks the cards to add and `target` is the
   * count at which the loop stops (`PRODUCTS_TO_ADD.length`); a count of 0 is never reached
   * after an increment, so then every card is inspected.
   */
  method AddUntil<T>(cards: seq<T>, keep: T -> bool, target: nat) returns (addedCount: nat, clicked: seq<nat>, inspected: nat)
    ensures inspected <= |cards|
    ensures clicked == IndicesBefore(cards, keep, inspected)
    ensures addedCount == |clicked|
    ensures target > 0 ==> addedCount <= target
    ensures inspected < |cards| ==> addedCount == target
    ensures target > 0 ==> forall p | 0 <= p < inspected :: |IndicesBefore(cards, keep, p)| < target
    ensures target > 0 ==> (addedCount == target <==> |IndicesBefore(cards, keep, |cards|)| >= target)
  {
    addedCount := 0;
    clicked := [];
    var i := 0;
    while i < |cards|
      invariant 0 <= i <= |cards|
      invariant clicked == IndicesBefore(cards, keep, i)
      invariant addedCount == |clicked|
      invariant target > 0 ==> addedCount < target
      invariant target > 0 ==> forall p | 0 <= p < i :: |IndicesBefore(cards, keep, p)| < target
      decreases |cards| - i
    {
      if keep(cards[i]) {
        ghost var seen := clicked;
        clicked := clicked + [i];
        addedCount := addedCount + 1;
        if addedCount == target {
          inspected := i + 1;
          IndicesBeforeGrows(cards, keep, inspected, |cards|);
          assert forall p | 0 <= p < inspected :: |IndicesBefore(cards, keep, p)| < target by {
            forall p | 0 <= p < inspected ensures |IndicesBefore(cards, keep, p)| < target {
              if p == i { assert IndicesBefore(cards, keep, p) == seen; }
            }
          }
          return;
        }
      }
      i := i + 1;
    }
    inspected := i;
  }

  // ---------------------------------------------------------------------------------------
  // The final count check
  // ---------------------------------------------------------------------------------------

  /** JavaScript's `+` on a number that may be `NaN` and an integer. */
  function Plus(a: Option<int>, b: int): (r: Option<int>)
    ensures r.Some? <==> a.Some?
    ensures r.Some? ==> r.value == a.value + b
  {
    if a.None? then None else Some(a.value + b)
  }

  /**
   * `expect(finalCount).toBe(initialCount + addedCount)`: `toBe` compares with `Object.is`,
   * under which `NaN` equals `NaN`.
   */
  predicate CountCheckAsWritten(initialCount: Option<int>, finalCount: Option<int>, addedCount: nat) {
    finalCount == Plus(initialCount, addedCount)
  }

  /** The check as meant: both counts are numbers and the final one is the initial one plus the count added. */
  predicate CountCheck(initialCount: Option<int>, finalCount: Option<int>, addedCount: nat) {
    initialCount.Some? && finalCount.Some? && finalCount.value == initialCount.value + addedCount
  }

  /** Where both counts are numbers, the two checks agree; otherwise the corrected one fails. */
  lemma CountCheckAgrees(initialCount: Option<int>, finalCount: Option<int>, addedCount: nat)
    ensures initialCount.Some? && finalCount.Some? ==>
              (CountCheckAsWritten(initialCount, finalCount, addedCount) <==> CountCheck(initialCount, finalCount, addedCount))
    ensures initialCount.None? || finalCount.None? ==> !CountCheck(initialCount, finalCount, addedCount)
  {
  }

  /** Two badges that show a word instead of a count pass the check as written, whatever was added. */
  lemma WordBadgesPass(addedCount: nat)
    ensures CountCheckAsWritten(CartCount(Some(" Cart ")), CartCount(Some(" Cart ")), addedCount)
    ensures !CountCheck(CartCount(Some(" Cart ")), CartCount(Some(" Cart ")), addedCount)
  {
    assert " Cart " == " " + "Cart" + " ";
    CartCountOfWord(" ", "Cart", " ");
  }

  /** Badges that show numbers pass the corrected check exactly when they differ by the count added. */
  lemma CountCheckOfNumbers(before: int, after: int, addedCount: nat)
    ensures CountCheck(CartCount(Some(IntToString(before))), CartCount(Some(IntToString(after))), addedCount)
        <==> after == before + addedCount
  {
    CartCountOfInt(before);
    CartCountOfInt(after);
  }
}
