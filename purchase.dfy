/**
 * The end-to-end purchase script that drives the shop with CSS selectors: it adds to the
 * cart every card whose name is wanted, and picks the country from the suggestion list by
 * comparing each option's text with " India" and clicking the first equal one.
 */
module Purchase {
  import opened Wrappers
  import opened Locators
  import opened Cards

  /**
   * The counting loop over the cards: each card whose trimmed name is wanted has its
   * Add To Cart button clicked and is counted; there is no early exit.
   */
  method AddWantedProducts(names: seq<Option<string>>, wanted: seq<string>) returns (addedCount: nat, clicked: seq<nat>)
    ensures clicked == IndicesWhere(names, WantedFilter(wanted))
    ensures addedCount == |clicked| <= |names|
  {
    addedCount, clicked := CountWhere(names, WantedFilter(wanted));
  }

  /** The same loop for any test of a card: the cards that pass are clicked, in order, and counted. */
  method CountWhere<T>(cards: seq<T>, keep: T -> bool) returns (count: nat, clicked: seq<nat>)
    ensures clicked == IndicesWhere(cards, keep)
    ensures count == |clicked| <= |cards|
  {
    count := 0;
    clicked := [];
    for i := 0 to |cards|
      invariant clicked == IndicesBefore(cards, keep, i)
      invariant count == |clicked|
    {
      if keep(cards[i]) {
        clicked := clicked + [i];
        count := count + 1;
      }
    }
  }

  /** Every card shown twice is counted twice: two cards with the same wanted name both add. */
  lemma {:induction false} DuplicateCardsEachCount(names: seq<Option<string>>, wanted: seq<string>, i: nat, j: nat)
    requires i < j < |names|
    requires IsWanted(names[i], wanted) && CardName(names[j]) == CardName(names[i])
    ensures |IndicesWhere(names, WantedFilter(wanted))| >= 2
  {
    assert WantedFilter(wanted)(names[i]) && WantedFilter(wanted)(names[j]);
    TwoMatches(names, WantedFilter(wanted), i, j);
  }

  /**
   * The cart after the counting loop, for a cart that starts empty and gains one entry per
   * Add To Cart click: the trimmed names of the clicked cards, in click order.
   */
  function CartEntries(names: seq<Option<string>>, wanted: seq<string>): (r: seq<string>)
    ensures |r| == |IndicesWhere(names, WantedFilter(wanted))|
  {
    var clicked := IndicesWhere(names, WantedFilter(wanted));
    IndicesWhereMeaning(names, WantedFilter(wanted));
    seq(|clicked|, (k: int) requires 0 <= k < |clicked| => CardName(names[clicked[k]]))
  }

  /**
   * `expect(cart entries).toEqual(addedCount)`: such a cart holds `addedCount` entries, each of
   * them a wanted name, and every wanted card on the page has its name in it.
   */
  lemma CartHoldsWantedCards(names: seq<Option<string>>, wanted: seq<string>)
    ensures |CartEntries(names, wanted)| == |IndicesWhere(names, WantedFilter(wanted))|
    ensures forall k | 0 <= k < |CartEntries(names, wanted)| :: CartEntries(names, wanted)[k] in wanted
    ensures forall i | 0 <= i < |names| && IsWanted(names[i], wanted) :: CardName(names[i]) in CartEntries(names, wanted)
  {
    var keep := WantedFilter(wanted);
    var clicked := IndicesWhere(names, keep);
    var cart := CartEntries(names, wanted);
    IndicesWhereMeaning(names, keep);
    forall k | 0 <= k < |cart| ensures cart[k] in wanted {
      assert keep(names[clicked[k]]);
    }
    forall i | 0 <= i < |names| && IsWanted(names[i], wanted) ensures CardName(names[i]) in cart {
      assert keep(names[i]);
      var k :| 0 <= k < |clicked| && clicked[k] == i;
      assert cart[k] == CardName(names[i]);
    }
  }

  /** The option text the country loop looks for, with its leading space. */
  const CountryText: string := " India"

  /**
   * The country loop: options are compared with " India" in list order, the first equal
   * one is clicked and the loop stops; nothing is clicked when no option is equal.
   */
  method SelectCountry(options: seq<Option<string>>) returns (clicked: Option<nat>)
    ensures clicked.Some? ==> clicked.value < |options| && options[clicked.value] == Some(CountryText)
    ensures clicked.Some? ==> forall j | 0 <= j < clicked.value :: options[j] != Some(CountryText)
    ensures clicked.None? <==> forall j | 0 <= j < |options| :: options[j] != Some(CountryText)
  {
    clicked := None;
    var i := 0;
    while i < |options|
      invariant 0 <= i <= |options|
      invariant forall j | 0 <= j < i :: options[j] != Some(CountryText)
      decreases |options| - i
    {
      if options[i] == Some(CountryText) {
        clicked := Some(i);
        return;
      }
      i := i + 1;
    }
  }
}
