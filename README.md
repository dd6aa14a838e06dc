# Playwright automation framework: the logic inside the test scripts

The repository is a set of Playwright end-to-end tests for a demo shop and a few practice
pages. Almost every step drives a browser. The computations inside the scripts are small
string and list calculations, and this project models those, with the browser replaced by
values:

- **Calendar date picker** (`tests/dynamicCalendar.spec.ts`): the month-name table with its
  `"01"` fallback, `padStart(2, '0')`, and the `MM/DD/YYYY` strings that are compared at the end.
  It also covers parsing the start year from a decade label such as `"2020 – 2029"`, and the
  `while (true)` search that pages the decade view toward the target year. The last parts are
  the month click and the exact day click, which skips greyed-out days of neighbouring months.
  The calendar is a `DecadeView` object: the first year shown and a fixed page width `W > 0`,
  with arrows that move the window by `W`. The width is a parameter because the scripts'
  comments disagree on it (twelve years per page, and a `"2020 – 2029"` label).
- **Purchase scripts** (`tests/E2EAssignment.spec.ts`, `tests/E2EAssignmentSpecialSelector.spec.ts`):
  - the loop that counts product cards whose trimmed name is wanted;
  - the country pick, which takes the first option whose text equals `" India"`;
  - the per-product add loop that uses `hasText` filters;
  - capture of order ids, taken as the second `|`-separated field, trimmed;
  - the order-history check, which opens the first row whose header is the id and compares
    the details page.
- **Session cart** (`tests/sessionStorage.spec.ts`): `parseInt(text?.trim() || '0')` for the
  cart badge, the card loop that stops once every wanted product is added, and the final count
  checks.
- **Child window** (`tests/UIcontrols.spec.ts`): `text?.match(/mentor@\S+/)?.[0] || ''`, written
  out as a leftmost, greedy scan.

Playwright itself appears only through what the scripts depend on:
- A filtered locator keeps matching elements in document order (`Locators.IndicesWhere`).
- `click()` acts only when exactly one element is left. With none left it times out, and with
  several it fails strict mode (`Locators.Click`). This is how the clicks chosen by a filter
  are modelled: the calendar's year, month and day clicks and the product click by role. A
  click inside a card or a table row that has already been chosen is taken to succeed; the
  "## Left out" lines for the members concerned say so.
- `hasText` is a case-insensitive substring test (`Text.HasText`).

JavaScript's `trim`, `split`, `padStart` and `parseInt` are modelled in `Text` and `Numbers`.

Modules: `Wrappers` (Option), `Text`, `Numbers`, `Locators`, `Cards`, `Calendar`, `Orders`,
`Purchase`, `PurchaseByRole`, `SessionCart`, `UiControls`.

## Model

| member | source | states |
|---|---|---|
| `Calendar.MonthNumberIsPosition` | tests/dynamicCalendar.spec.ts:38-43 | the i-th full English month name maps to i+1 written with two digits ("January" → "01", "October" → "10") |
| `Calendar.MonthMapKeys` | tests/dynamicCalendar.spec.ts:38-42 | the table's keys are exactly the twelve month names |
| `Calendar.MonthNumber` | tests/dynamicCalendar.spec.ts:38-43 | `monthMap[inputMonth] \|\| '01'`: a month's entry, the text of an inherited member, or "01"; never empty |
| `Calendar.MonthNumberFallback` | tests/dynamicCalendar.spec.ts:43 | a name that is neither a month nor a member inherited from `Object.prototype` maps to "01"; an inherited name such as "toString" never does |
| `Calendar.MonthNumberInherited` | tests/dynamicCalendar.spec.ts:38-43 | an inherited name such as "constructor" or "__proto__" is looked up on the prototype: the month number is the member's text, longer than two characters, not starting with a digit, without '/' |
| `Calendar.MonthNumberDefault` | tests/dynamicCalendar.spec.ts:43 | "01" comes out exactly for "January" and for names that are neither months nor inherited members |
| `Calendar.MonthNumberDigits` | tests/dynamicCalendar.spec.ts:38-43 | the month number is two decimal digits exactly when the name is not an inherited member |
| `Calendar.MonthNumberNoSlash` | tests/dynamicCalendar.spec.ts:43 | the month number never holds '/', so it stays one field of the date string |
| `Numbers.PadStart` | tests/dynamicCalendar.spec.ts:44 | `padStart(n, c)` has length max(\|s\|, n) in code points, ends with `s` and is `c` before it |
| `Numbers.Pad2` | tests/dynamicCalendar.spec.ts:44 | counting code points: a one-character string gets one leading "0", a string of length ≥ 2 is unchanged, the result has length ≥ 2 |
| `Numbers.Pad2Idempotent` | tests/dynamicCalendar.spec.ts:149 | padding a padded string changes nothing |
| `Calendar.ExpectedDate` | tests/dynamicCalendar.spec.ts:137 | with day and year free of '/', the expected date splits on '/' into month number, padded day and year |
| `Calendar.ActualDate` | tests/dynamicCalendar.spec.ts:149 | with fields free of '/', the actual date splits on '/' into padded month, padded day and year |
| `Calendar.ExpectedDateExample` | tests/dynamicCalendar.spec.ts:137 | ("October", "3", "1992") gives "10/03/1992", and so do the fields "10", "3", "1992" |
| `Calendar.DateFields` | tests/dynamicCalendar.spec.ts:137 | a date string splits on '/' back into its month, day and year fields |
| `Calendar.DateCheckIsFieldwise` | tests/dynamicCalendar.spec.ts:137-154 | comparing the composed strings is comparing padded month, padded day and year one by one |
| `Calendar.SelectedDateValidates` | tests/dynamicCalendar.spec.ts:142-154 | when the fields hold the unpadded month number, the day text and the year text, actual equals expected |
| `Calendar.LabelStartYear` | tests/dynamicCalendar.spec.ts:87 | a missing label, or a label whose text before the en dash is blank, reads as 0 |
| `Numbers.ParseInt` | tests/dynamicCalendar.spec.ts:87 | `parseInt` gives NaN exactly when no digits follow the leading white space and sign |
| `Numbers.ParseIntToString` | tests/dynamicCalendar.spec.ts:63 | `parseInt` reads back the decimal text of any integer |
| `Calendar.DecadeLabel` | tests/dynamicCalendar.spec.ts:82-83 | the label "start – end" splits on the en dash into "start " and " end", end being start+W−1 |
| `Calendar.LabelStartYearOfDecade` | tests/dynamicCalendar.spec.ts:83-87 | the start year parsed from a page's label "start – end" is the page's first year |
| `Calendar.LabelStartYearExample2020` | tests/dynamicCalendar.spec.ts:82-86 | "2020 – 2029" gives 2020 |
| `Calendar.LabelStartYearExample1990` | tests/dynamicCalendar.spec.ts:82 | "1990 – 2001" gives 1990 |
| `Calendar.DecadeView.constructor` | tests/dynamicCalendar.spec.ts:52-55 | the decade view opens on some first year with `W` years per page |
| `Calendar.DecadeView.ClickPrevious` | tests/dynamicCalendar.spec.ts:97 | the previous arrow moves the window back by `W` |
| `Calendar.DecadeView.ClickNext` | tests/dynamicCalendar.spec.ts:103 | the next arrow moves the window forward by `W` |
| `Calendar.MatchingYears` | tests/dynamicCalendar.spec.ts:69-72 | the years of a page whose button passes the filter: all of them, only them, in page order |
| `Calendar.ButtonsShowMatchingYears` | tests/dynamicCalendar.spec.ts:69-72 | the elements the year filter keeps among the page's buttons, in document order, are the buttons of exactly the matching years |
| `Calendar.TargetPageMatches` | tests/dynamicCalendar.spec.ts:69-72 | the page that shows the target year has a matching button, under either filter |
| `Calendar.ExactMatchIsTarget` | tests/dynamicCalendar.spec.ts:69-70 | with whole-text matching only the target year's button matches |
| `Calendar.TurnPage` | tests/dynamicCalendar.spec.ts:83-104 | one round reads the label, parses it and clicks toward the target: previous exactly when target < first year |
| `Calendar.StepTowardTarget` | tests/dynamicCalendar.spec.ts:92-104 | a page without the target is left in the search's one direction, never passes the target, and the distance to the target's page strictly drops |
| `Calendar.ClickBound` | tests/dynamicCalendar.spec.ts:65-107 | the number of clicks is at most the number of pages between the first page and the target's |
| `Calendar.PageToYear` | tests/dynamicCalendar.spec.ts:65-107 | the loop ends, every click goes the same way, every page passed had no match, and it stops on the first page with a match |
| `Calendar.SelectYear` | tests/dynamicCalendar.spec.ts:63-107 | the year search for any canonical year text ends; the final click is the click on the buttons the filter keeps on the last page; with whole-text matching it clicks exactly the target year |
| `Calendar.SelectMonth` | tests/dynamicCalendar.spec.ts:114 | the month click finds nothing exactly when no button's text holds the name, case aside; a button it clicks holds the name |
| `Calendar.SelectMonthIff` | tests/dynamicCalendar.spec.ts:114 | the month click reaches a button exactly when it is the only button whose text holds the name |
| `Calendar.MonthNamesApart` | tests/dynamicCalendar.spec.ts:114 | no month name occurs, in any case, inside another month's name |
| `Calendar.MonthButtonSelected` | tests/dynamicCalendar.spec.ts:112-114 | on the month view each full month name clicks its own month |
| `Calendar.SelectDay` | tests/dynamicCalendar.spec.ts:125-130 | the day click finds nothing exactly when no active day reads the input; a button it clicks is an active day that does |
| `Calendar.SelectDayIff` | tests/dynamicCalendar.spec.ts:125-130 | the day click reaches a button exactly when it is the only active button whose whole text is the input |
| `Calendar.DaySelected` | tests/dynamicCalendar.spec.ts:119-130 | on a month page, whose days each carry their own class list without "neighboringMonth", input day d clicks day d: "3" never picks "13", "23", "31" or a greyed-out "3" |
| `Calendar.HasTextFilterStopsEarly` | tests/dynamicCalendar.spec.ts:69-75 | with the substring filter, "992" is matched by the button "1992" and the wrong year is clicked |
| `Text.Trim` | tests/E2EAssignment.spec.ts:74 | `trim()` leaves no white space at either end, keeps trimmed text, and is empty exactly for all-white-space text |
| `Text.HasText` | tests/E2EAssignmentSpecialSelector.spec.ts:22 | a `hasText` filter, without white-space normalisation, keeps every text for the empty query and no text shorter than the query |
| `Text.Split` | tests/E2EAssignment.spec.ts:74 | `split` on a one-character separator gives at least one field, as JavaScript's does, even for the empty text |
| `Text.SplitFields` | tests/E2EAssignment.spec.ts:74 | `split('\|')` fields hold no separator and join back to the text; one field exactly when there is no separator |
| `Text.SplitJoin` | tests/E2EAssignment.spec.ts:74 | splitting joined separator-free fields gives the fields back |
| `Orders.ExtractOrderId` | tests/E2EAssignment.spec.ts:72-76 | a captured id is non-empty, trimmed and has no '\|' |
| `Orders.ExtractOrderIdMeaning` | tests/E2EAssignment.spec.ts:72-76 | there is no id exactly for an empty or missing text, a text without '\|', or a blank second field |
| `Orders.ExtractOrderIdOfText` | tests/E2EAssignment.spec.ts:74 | the second '\|'-field, padded with white space, comes back trimmed |
| `Orders.ExtractOrderIdExample` | tests/E2EAssignment.spec.ts:74 | "Order \| abc123 " gives "abc123" |
| `Orders.OrderIdsSound` | tests/E2EAssignment.spec.ts:68-80 | each captured id is some element's id, and there are no more ids than elements |
| `Orders.OrderIdsAppend` | tests/E2EAssignment.spec.ts:71 | capture keeps element order: a split page captures part by part |
| `Orders.OrderIdsComplete` | tests/E2EAssignmentSpecialSelector.spec.ts:54-66 | every element with an id contributes it |
| `Orders.CollectOrderIds` | tests/E2EAssignmentSpecialSelector.spec.ts:57-66 | the push loop yields exactly the ids of the elements, in element order |
| `Orders.FindOrderRow` | tests/E2EAssignment.spec.ts:91-105 | the row scan stops at the first row whose trimmed header is the id |
| `Orders.FirstRowForMeaning` | tests/E2EAssignmentSpecialSelector.spec.ts:77-91 | the row opened holds the id and no earlier row does; no row is opened when none holds it |
| `Orders.VerifyOrders` | tests/E2EAssignment.spec.ts:86-107 | the outer loop's verdict and opened rows are those of the check over all ids |
| `Orders.CheckOrders` | tests/E2EAssignment.spec.ts:86-107 | the scripts' check never reports a missing order; it opens at most one row per id, and only rows of the table |
| `Orders.CheckOrdersPasses` | tests/E2EAssignmentSpecialSelector.spec.ts:72-93 | the check passes exactly when no listed id's details page shows another id |
| `Orders.CheckOrdersFirstFailure` | tests/E2EAssignment.spec.ts:99 | a failed check names the first failing id, and its row is the last one opened |
| `Orders.UnlistedOrdersPass` | tests/E2EAssignment.spec.ts:91-106 | ids that no row holds are passed over: nothing is opened and the verdict is success |
| `Orders.UnlistedOrderExample` | tests/E2EAssignmentSpecialSelector.spec.ts:77-91 | an order missing from the history passes the scripts' check but fails the strict one |
| `Orders.CheckOrdersStrictPasses` | tests/E2EAssignmentSpecialSelector.spec.ts:72-93 | the strict check passes exactly when every id is listed and its details show it |
| `Orders.CheckOrdersStrictAgrees` | tests/E2EAssignment.spec.ts:86-107 | when every id is listed, the strict check and the scripts' check agree |
| `Orders.CheckOrdersStrictUnlisted` | tests/E2EAssignment.spec.ts:94 | the strict check reports the first id missing from the history |
| `Cards.CardName` | tests/E2EAssignment.spec.ts:24-25 | the name read is trimmed, a trimmed name is read as it is, and it is empty exactly for a missing or blank name |
| `Cards.IsWanted` | tests/E2EAssignment.spec.ts:25 | a card with a missing or blank name is wanted exactly when the list holds the empty string |
| `Cards.IsWantedOfPadded` | tests/E2EAssignment.spec.ts:25 | a card is wanted exactly when its name, once trimmed, is in the list |
| `Purchase.AddWantedProducts` | tests/E2EAssignment.spec.ts:22-30 | the cards clicked are exactly the wanted ones, in order, and `addedCount` is their number |
| `Purchase.CountWhere` | tests/E2EAssignment.spec.ts:23-29 | the loop with no early exit clicks and counts every card that passes |
| `Purchase.DuplicateCardsEachCount` | tests/E2EAssignment.spec.ts:22-30 | two cards with the same wanted name are both added and counted |
| `Purchase.CartEntries` | tests/E2EAssignment.spec.ts:33-35 | the cart after the loop has one entry per click |
| `Purchase.CartHoldsWantedCards` | tests/E2EAssignment.spec.ts:35 | that cart has `addedCount` entries, all wanted, and holds every wanted card's name |
| `Purchase.SelectCountry` | tests/E2EAssignment.spec.ts:55-60 | the first option whose text is exactly " India" is clicked; none is clicked when no option is |
| `PurchaseByRole.ClickProduct` | tests/E2EAssignmentSpecialSelector.spec.ts:22 | the add click finds nothing exactly when no card's text holds the product name, case aside; a card it adds holds the name |
| `PurchaseByRole.AddFirst` | tests/E2EAssignmentSpecialSelector.spec.ts:21-24 | after n iterations: one card per product when all clicked; when a click failed, the product is one of the first n, its click did not reach one element, and one card was added per earlier product |
| `PurchaseByRole.AddEachProduct` | tests/E2EAssignmentSpecialSelector.spec.ts:21-24 | the add loop over the products, one click per product in list order, stopping at a failed click |
| `PurchaseByRole.AddEach` | tests/E2EAssignmentSpecialSelector.spec.ts:21-24 | the same loop for any click function |
| `PurchaseByRole.AddFailedStays` | tests/E2EAssignmentSpecialSelector.spec.ts:22 | after a failed click nothing further happens |
| `PurchaseByRole.AddFirstAllAdded` | tests/E2EAssignmentSpecialSelector.spec.ts:21-24 | the loop completes exactly when every click succeeds; then one card is clicked per product, in list order, each the card that product's filter left |
| `PurchaseByRole.AddFirstFailed` | tests/E2EAssignmentSpecialSelector.spec.ts:21-24 | a stopped loop names the first product whose click failed and added one card per earlier product |
| `PurchaseByRole.ClickProductIff` | tests/E2EAssignmentSpecialSelector.spec.ts:22 | a product is added exactly when its `hasText` filter leaves one card |
| `PurchaseByRole.SelectCountry` | tests/E2EAssignmentSpecialSelector.spec.ts:46 | the exact "India" click finds nothing exactly when no option's trimmed text is "India"; an option it clicks reads "India" |
| `PurchaseByRole.SelectCountryIff` | tests/E2EAssignmentSpecialSelector.spec.ts:46 | the exact "India" click reaches an option exactly when it is the only one reading "India" |
| `SessionCart.CountText` | tests/sessionStorage.spec.ts:90 | the badge text is trimmed, or "0" when missing or blank |
| `SessionCart.CartCountOfNumber` | tests/sessionStorage.spec.ts:89-90 | a badge showing a number, padded with white space, reads as that number |
| `SessionCart.CartCountOfInt` | tests/sessionStorage.spec.ts:116-117 | a badge showing a number reads as that number |
| `SessionCart.CartCount` | tests/sessionStorage.spec.ts:90 | a missing or blank badge reads as 0 |
| `SessionCart.CartCountOfWord` | tests/sessionStorage.spec.ts:117 | a badge whose text starts with a letter reads as NaN |
| `SessionCart.AddUntil` | tests/sessionStorage.spec.ts:93-110 | the early-exit loop for any card test and stopping count: count ≤ target, cards before the stop are inspected, the loop stops only once the target is reached |
| `SessionCart.AddUntilAll` | tests/sessionStorage.spec.ts:96-113 | `addedCount` ≤ `PRODUCTS_TO_ADD.length` and ≤ the cards inspected, later cards are never read, and the count equals the list length exactly when the page has enough wanted cards |
| `SessionCart.CountCheckAgrees` | tests/sessionStorage.spec.ts:118 | with numeric counts, the written check and the numeric check agree; otherwise the numeric one fails |
| `SessionCart.WordBadgesPass` | tests/sessionStorage.spec.ts:116-118 | two non-numeric badges pass `toBe` whatever was added |
| `SessionCart.CountCheckOfNumbers` | tests/sessionStorage.spec.ts:118 | numeric badges pass the numeric check exactly when they differ by the count added |
| `UiControls.FirstMatchFrom` | tests/UIcontrols.spec.ts:86 | the scan finds the leftmost position where "mentor@" is followed by a non-white-space character |
| `UiControls.NonSpaceRun` | tests/UIcontrols.spec.ts:86 | `\S+` takes the longest run of non-white-space characters |
| `UiControls.ExtractEmail` | tests/UIcontrols.spec.ts:86 | the result is '' or "mentor@" followed by at least one more character |
| `UiControls.ExtractEmailMeaning` | tests/UIcontrols.spec.ts:86 | a result holds no white space and is the leftmost greedy match; '' exactly when the text is missing or nothing matches |
| `UiControls.LeftmostGreedyMatchIsExtracted` | tests/UIcontrols.spec.ts:86 | any leftmost greedy match in the text is the result, so the match is unique |
| `UiControls.ExtractEmailOf` | tests/UIcontrols.spec.ts:86 | an address after text without 'm', ended by white space or the end, is extracted |
| `UiControls.NoAddressGivesEmpty` | tests/UIcontrols.spec.ts:86 | a text where every '@' is last or followed by white space gives '' |
| `UiControls.ExtractEmailExample` | tests/UIcontrols.spec.ts:86 | "to mentor@rsa.com now" gives "mentor@rsa.com" |

## Left out

- Browser driving: navigation, waits, `fill`, `goBack`, screenshots, console logging, login, checkout and coupon steps. Element texts and the calendar page are inputs instead.
- Network interception, `Promise.all` with `waitForEvent`/`waitForResponse`, the HTTP helpers, spreadsheet I/O and dialog handlers. These are asynchronous or external.
- Saving and restoring the session-storage file, and the Playwright configuration files. These are external state and settings.
- Calendar.SelectYear: requires the year text to be the canonical decimal text of an integer. On some other text the source loops forever, which a terminating method cannot model. With "abc", `parseInt` gives NaN, no button matches, and the source keeps clicking "next". With a non-canonical number such as "01992", `parseInt` gives 1992 but no button holds "01992", so the source clicks back and forth between the pages 1990–1999 and 2000–2009. Text with white space around a canonical year, such as " 1992", is excluded too, although the source handles it: `parseInt` gives 1992, Playwright trims the filter's query, and the button "1992" is clicked.
- Calendar.DecadeView: the calendar pages without bound in both directions. A real date picker's minimum and maximum dates are not modelled, and with them the source loop would not end for an out-of-range year.
- Calendar.InheritedText: the text of an inherited member is the one Node (V8) prints. ECMAScript leaves the text of a native function to the implementation.
- Text.HasText: folds only ASCII letters for the case-insensitive match, where Playwright lowercases with full Unicode rules. It also leaves out Playwright's white-space normalisation of both the text and the query: removing U+200B, trimming both ends, and collapsing internal white space. So a query with white space around it, such as " 1992", is not found in "1992" here, although Playwright finds it.
- Calendar.SelectDayIff: `getByText(…, { exact: true })` is modelled as equality of trimmed texts. Playwright's collapsing of internal white space is not modelled.
- PurchaseByRole.SelectCountryIff: same simplification of exact text matching.
- Numbers.ParseInt: decimal text only. Hexadecimal prefixes, `Infinity` and the precision of doubles beyond 2^53 are not modelled, nor is negative zero: `parseInt("-0")` is -0 in JavaScript, which `toBe` (Object.is) tells apart from 0, and the model gives 0.
- Numbers.PadStart: lengths are counted in characters (code points), where JavaScript's `padStart` counts UTF-16 code units. A character outside the Basic Multilingual Plane counts once here and twice in JavaScript. The scripts pad only digit strings, where the two counts agree.
- Numbers.Pad2: the same counting of length in code points. JavaScript leaves a single character outside the Basic Multilingual Plane unpadded, because its UTF-16 length is already 2; the model pads it with one "0".
- PurchaseByRole.AddFirstAllAdded: proves one click per product, not the cart count asserted at tests/E2EAssignmentSpecialSelector.spec.ts:29. Two products whose filters leave the same card click that card twice, and the count then depends on the clicked cards being distinct and on how the shop's cart counts repeated clicks, which is site behaviour.
- Purchase.CartEntries: assumes the shop adds one cart entry per click. Whether it merges two clicks on the same product is site behaviour outside the scripts.
- A click on a locator with no element waits for its timeout and then fails. The model returns `NoElement` at once.
- Purchase.AddWantedProducts: takes each wanted card's `locator('text= Add To Cart').click()` (tests/E2EAssignment.spec.ts:26) to succeed. A card with no such text, or with two, makes the source time out or fail strict mode, while the model counts the card as clicked.
- Purchase.CountWhere: the same assumption for the click inside its loop: every card that passes is clicked successfully.
- SessionCart.AddUntil: takes the click on each passing card (tests/sessionStorage.spec.ts:100, `locator('text= Add To Cart')`) to find exactly one element. A card without that button, or with two, would end the source with an error instead of being counted.
- SessionCart.AddUntilAll: the same one-element assumption for the "Add To Cart" click of each wanted card.
- Orders.VerifyOrders: takes the `locator('text=View').click()` in the matching row (tests/E2EAssignment.spec.ts:95, tests/E2EAssignmentSpecialSelector.spec.ts:81) to find exactly one element and open that row's details page. A row without a View link, or with two, would make the source fail there.
- PurchaseByRole.ClickProduct: the card filter is modelled with `Click`, but within the single card it leaves, `getByRole('button', { name: ' Add To Cart ' })` (tests/E2EAssignmentSpecialSelector.spec.ts:22) is taken to find exactly one button. A card with no such button, or with two, would fail the source where the model reports the card as added.
- PurchaseByRole.SelectCountry: `page.getByText('India', { exact: true })` (tests/E2EAssignmentSpecialSelector.spec.ts:46) searches the whole page, and the model searches only `options`. So `options` stands for every element on the page whose text the locator sees. The model cannot show the strict-mode failure caused by another element elsewhere on the page, outside the country list, that also reads "India".
- The month and day values that the calendar writes into its input fields are taken as inputs (`MonthFieldValue`, day text, year text). The calendar's rendering is not part of this model.

## Findings

| source | as written | input that shows it | evidently intended | confidence | as-written member | corrected member |
|---|---|---|---|---|---|---|
| tests/dynamicCalendar.spec.ts:69-75 | year buttons are filtered with `hasText`, a substring match | target "992" on the page 1990–1999: button "1992" contains "992", so the search stops and clicks 1992 | compare the button's whole text with the year, which in whole-text mode clicks exactly the target | not executed; needs a year of fewer than four digits | `Calendar.HasTextFilterStopsEarly` | `Calendar.SelectYear` |
| tests/sessionStorage.spec.ts:116-118 | `expect(finalCount).toBe(initialCount + addedCount)` with counts from `parseInt` | a badge reading " Cart " before and after: both counts are NaN and `toBe` (Object.is) passes whatever was added | fail unless both counts are numbers that differ by the count added | not executed; depends on the badge's text | `SessionCart.WordBadgesPass` | `SessionCart.CountCheckOfNumbers` |
| tests/E2EAssignment.spec.ts:86-107 | an id that no history row holds is passed over silently | id "abc123" with a history whose one row is "other": nothing is opened and the test passes | report the order as missing | not executed; same code at tests/E2EAssignmentSpecialSelector.spec.ts:72-93 | `Orders.UnlistedOrderExample` | `Orders.CheckOrdersStrictPasses` |
