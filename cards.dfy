/**
 * The product cards of the shop's dashboard, as the card loops read them: the text of a
 * card's `h5 b` element, which may be missing.
 */
module Cards {
  import opened Wrappers
  import opened Text

  /**
   * `productName?.trim() || ''`: the trimmed name, or the empty string for a missing one;
   * a name that is already trimmed is read as it is.
   */
  function CardName(name: Option<string>): (r: string)
    ensures Trimmed(r)
    ensures name.Some? && Trimmed(name.value) ==> r == name.value
    ensures r == [] <==> name.None? || AllSpace(name.value)
  {
    if name.None? then [] else Trim(name.value)
  }

  /**
   * `productsToAdd.includes(productName?.trim() || '')`: a card without a name, or with a
   * blank one, is wanted exactly when the list holds the empty string.
   */
  predicate IsWanted(name: Option<string>, wanted: seq<string>)
    ensures name.None? || AllSpace(name.value) ==> (IsWanted(name, wanted) <==> [] in wanted)
  {
    CardName(name) in wanted
  }

  function WantedFilter(wanted: seq<string>): Option<string> -> bool {
    (name: Option<string>) => IsWanted(name, wanted)
  }

  /** A card is wanted exactly when its name, once trimmed, is one of the wanted names. */
  lemma IsWantedOfPadded(lead: string, name: string, trail: string, wanted: seq<string>)
    requires AllSpace(lead) && AllSpace(trail) && Trimmed(name) && name != []
    ensures IsWanted(Some(lead + name + trail), wanted) <==> name in wanted
  {
    TrimPadded(lead, name, trail);
  }
}
