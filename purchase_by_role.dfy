/**
 * The end-to-end purchase script that drives the shop with Playwright's user-facing
 * locators: for each wanted product it filters the cards by `hasText` and clicks the one
 * Add To Cart button of what is left, and it picks the country with an exact `getByText`.
 * A click that finds no element or several fails the script, so the first such product
 * ends the loop.
 */
module PurchaseByRole {
  import opened Wrappers
  import opened Text
  import opened Locators

  /** `filter({hasText: product})`: the card's text holds the product name, case aside. */
  function ProductFilter(product: string): string -> bool {
    (card: string) => HasText(card, product)
  }

  /**
   * Clicking Add To Cart on the cards left by the filter; each card has one such button. The
   * click finds nothing exactly when no card holds the name, and the card it adds holds it.
   */
  function ClickProduct(cards: seq<string>, product: string): (r: ClickOutcome<nat>)
    ensures r.NoElement? <==> forall i | 0 <= i < |cards| :: !HasText(cards[i], product)
    ensures r.Clicked? ==> r.target < |cards| && HasText(cards[r.target], product)
  {
    ClickWhereOutcome(cards, ProductFilter(product));
    assert forall i | 0 <= i < |cards| :: ProductFilter(product)(cards[i]) == HasText(cards[i], product);
    Click(IndicesWhere(cards, ProductFilter(product)))
  }

  function ClickOf(cards: seq<string>): string -> ClickOutcome<nat> {
    (product: string) => ClickProduct(cards, product)
  }

  /** The outcome `click` has for each product, in list order. */
  function Outcomes<P>(products: seq<P>, click: P -> ClickOutcome<nat>): (r: seq<ClickOutcome<nat>>)
    ensures |r| == |products|
    ensures forall k | 0 <= k < |products| :: r[k] == click(products[k])
  {
    seq(|products|, (k: int) requires 0 <= k < |products| => click(products[k]))
  }

  /** The state of the add loop: the cards added so far, and the failed click that ended it, if one did. */
  datatype AddResult =
    | AllAdded(added: seq<nat>)
    | AddFailed(added: seq<nat>, product: nat, outcome: ClickOutcome<nat>)

  /**
   * What the first `n` iterations of `for (let i = 0; i < productsToAdd.length; i++)` do,
   * given the outcome each product's click would have.
   */
  function AddFirst(outcomes: seq<ClickOutcome<nat>>, n: nat): (r: AddResult)
    requires n <= |outcomes|
    ensures r.AllAdded? ==> |r.added| == n
    ensures r.AddFailed? ==> |r.added| == r.product < n && !r.outcome.Clicked?
  {
    if n == 0 then AllAdded([])
    else
      var prev := AddFirst(outcomes, n - 1);
      if prev.AddFailed? then prev
      else if outcomes[n - 1].Clicked? then AllAdded(prev.added + [outcomes[n - 1].target])
      else AddFailed(prev.added, n - 1, outcomes[n - 1])
  }

  /** The whole loop over the wanted products, each filtered among the cards and clicked. */
  method AddEachProduct(cards: seq<string>, products: seq<string>) returns (result: AddResult)
    ensures result == AddFirst(Outcomes(products, ClickOf(cards)), |products|)
  {
    result := AddEach(products, ClickOf(cards));
  }

  /**
   * The same loop for any way of clicking a product: the first click that does not reach
   * exactly one element throws, which ends the loop and the script.
   */
  method AddEach<P>(products: seq<P>, click: P -> ClickOutcome<nat>) returns (result: AddResult)
    ensures result == AddFirst(Outcomes(products, click), |products|)
  {
    ghost var outcomes := Outcomes(products, click);
    var added: seq<nat> := [];
    for i := 0 to |products|
      invariant AddFirst(outcomes, i) == AllAdded(added)
    {
      var outcome := click(products[i]);
      if !outcome.Clicked? {
        result := AddFailed(added, i, outcome);
        assert AddFirst(outcomes, i + 1) == result;
        AddFailedStays(outcomes, i + 1, |products|);
        return;
      }
      added := added + [outcome.target];
    }
    result := AllAdded(added);
  }

  /** Once a click has failed, later iterations change nothing. */
  lemma {:induction false} AddFailedStays(outcomes: seq<ClickOutcome<nat>>, m: nat, n: nat)
    requires m <= n <= |outcomes|
    requires AddFirst(outcomes, m).AddFailed?
    ensures AddFirst(outcomes, n) == AddFirst(outcomes, m)
    decreases n - m
  {
    if m < n {
      AddFailedStays(outcomes, m, n - 1);
    }
  }

  /**
   * The loop runs to its end exactly when every click succeeds; then one card is added per
   * product, in list order, and it is the card that product's click reached.
   */
  lemma {:induction false} AddFirstAllAdded(outcomes: seq<ClickOutcome<nat>>, n: nat)
    requires n <= |outcomes|
    ensures AddFirst(outcomes, n).AllAdded? <==> forall k | 0 <= k < n :: outcomes[k].Clicked?
    ensures AddFirst(outcomes, n).AllAdded? ==>
              && |AddFirst(outcomes, n).added| == n
              && forall k | 0 <= k < n :: outcomes[k] == Clicked(AddFirst(outcomes, n).added[k])
  {
    if n > 0 {
      AddFirstAllAdded(outcomes, n - 1);
    }
  }

  /**
   * A stopped loop names the first product whose click failed, with that click's outcome,
   * and has added one card for each product before it.
   */
  lemma {:induction false} AddFirstFailed(outcomes: seq<ClickOutcome<nat>>, n: nat)
    requires n <= |outcomes|
    requires AddFirst(outcomes, n).AddFailed?
    ensures var r := AddFirst(outcomes, n);
            && r.product < n
            && r.outcome == outcomes[r.product]
            && !r.outcome.Clicked?
            && |r.added| == r.product
            && forall k | 0 <= k < r.product :: outcomes[k] == Clicked(r.added[k])
  {
    var prev := AddFirst(outcomes, n - 1);
    if prev.AddFailed? {
      AddFirstFailed(outcomes, n - 1);
    } else {
      AddFirstAllAdded(outcomes, n - 1);
    }
  }

  /** A product is added exactly when its filter leaves exactly one card. */
  lemma ClickProductIff(cards: seq<string>, product: string, x: nat)
    requires x < |cards|
    ensures ClickProduct(cards, product) == Clicked(x)
        <==> HasText(cards[x], product) && forall i | 0 <= i < |cards| && i != x :: !HasText(cards[i], product)
  {
    ClickWhere(cards, ProductFilter(product), x);
  }

  /** `getByText('India', { exact: true })`: the option whose trimmed text is exactly "India". */
  function CountryFilter(): string -> bool {
    (option: string) => Trim(option) == "India"
  }

  /** The country click finds nothing exactly when no option reads "India", and the option it clicks does. */
  function SelectCountry(options: seq<string>): (r: ClickOutcome<nat>)
    ensures r.NoElement? <==> forall i | 0 <= i < |options| :: Trim(options[i]) != "India"
    ensures r.Clicked? ==> r.target < |options| && Trim(options[r.target]) == "India"
  {
    ClickWhereOutcome(options, CountryFilter());
    assert forall i | 0 <= i < |options| :: CountryFilter()(options[i]) == (Trim(options[i]) == "India");
    Click(IndicesWhere(options, CountryFilter()))
  }

  /** The country click reaches option `x` exactly when it is the only option that reads "India". */
  lemma SelectCountryIff(options: seq<string>, x: nat)
    requires x < |options|
    ensures SelectCountry(options) == Clicked(x)
        <==> Trim(options[x]) == "India" && forall i | 0 <= i < |options| && i != x :: Trim(options[i]) != "India"
  {
    ClickWhere(options, CountryFilter(), x);
  }
}
