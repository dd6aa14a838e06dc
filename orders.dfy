/**
 * The order part of the two end-to-end purchase scripts: after checkout the confirmation
 * page lists one element per order, whose text carries the order id between '|' marks;
 * the ids are captured in page order and each one is looked up in the order-history table,
 * opened, and compared with the id shown on the details page.
 */
module Orders {
  import opened Wrappers
  import opened Text
  import opened Locators

  // ---------------------------------------------------------------------------------------
  // Capturing the order ids
  // ---------------------------------------------------------------------------------------

  /**
   * `if (text) { const orderId = text.split('|')[1]?.trim(); if (orderId) ... }`: the second
   * '|'-separated field, trimmed; nothing for a missing or empty text, a text without '|',
   * or a second field of white space only.
   */
  function ExtractOrderId(text: Option<string>): (r: Option<string>)
    ensures r.Some? ==> r.value != [] && Trimmed(r.value) && '|' !in r.value
  {
    if text.None? || text.value == [] then None
    else
      var fields := Split(text.value, '|');
      if |fields| < 2 then None
      else
        SplitFields(text.value, '|');
        TrimKeepsOut(fields[1], '|');
        var id := Trim(fields[1]);
        if id == [] then None else Some(id)
  }

  /** Exactly the texts described above give no id. */
  lemma ExtractOrderIdMeaning(text: Option<string>)
    ensures ExtractOrderId(text).Some? <==> text.Some? && text.value != [] && |Split(text.value, '|')| >= 2
                                             && !AllSpace(Split(text.value, '|')[1])
  {
  }

  /** Trimming adds no character. */
  lemma TrimKeepsOut(s: string, c: char)
    requires c !in s
    ensures c !in Trim(s)
  {
    var t := TrimStart(s);
    var r := TrimEnd(t);
    forall k | 0 <= k < |r| ensures r[k] != c {
      assert r[k] == t[k] == s[|s| - |t| + k];
    }
  }

  /**
   * The id comes back out of any confirmation text that has it, padded with white space,
   * as its second '|'-separated field.
   */
  lemma {:induction false} ExtractOrderIdOfText(head: string, lead: string, id: string, trail: string, more: seq<string>)
    requires '|' !in head && '|' !in lead && '|' !in id && '|' !in trail
    requires forall k | 0 <= k < |more| :: '|' !in more[k]
    requires AllSpace(lead) && AllSpace(trail) && Trimmed(id) && id != []
    ensures ExtractOrderId(Some(Join([head, lead + id + trail] + more, '|'))) == Some(id)
  {
    var fields := [head, lead + id + trail] + more;
    var text := Join(fields, '|');
    assert '|' !in lead + id + trail;
    SplitJoin(fields, '|');
    assert |Split(text, '|')| >= 2;
    assert Split(text, '|')[1] == lead + id + trail;
    assert text != [];
    TrimPadded(lead, id, trail);
  }

  /** The example of the script's comment: "Order | abc123 " gives "abc123". */
  lemma ExtractOrderIdExample()
    ensures ExtractOrderId(Some("Order | abc123 ")) == Some("abc123")
  {
    var fields := ["Order ", " abc123 "];
    assert Join(fields, '|') == "Order | abc123 ";
    assert Join(fields, '|') == Join(["Order ", " " + "abc123" + " "] + [], '|');
    ExtractOrderIdOfText("Order ", " ", "abc123", " ", []);
  }

  /** What one element adds to `orderIds`. */
  function Captured(text: Option<string>): (r: seq<string>)
    ensures |r| <= 1
    ensures r != [] <==> ExtractOrderId(text).Some?
    ensures r != [] ==> r[0] == ExtractOrderId(text).value
  {
    var id := ExtractOrderId(text);
    if id.Some? then [id.value] else []
  }

  /** What a loop pushes when element `x` contributes `f(x)`: the contributions in element order. */
  function Collect<T, U>(xs: seq<T>, f: T -> seq<U>): seq<U> {
    if xs == [] then [] else f(xs[0]) + Collect(xs[1..], f)
  }

  /** Collecting over a list split in two is collecting over each part, one after the other. */
  lemma {:induction false} CollectAppend<T, U>(a: seq<T>, b: seq<T>, f: T -> seq<U>)
    ensures Collect(a + b, f) == Collect(a, f) + Collect(b, f)
  {
    if a != [] {
      CollectAppend(a[1..], b, f);
      assert (a + b)[1..] == a[1..] + b;
    } else {
      assert a + b == b;
    }
  }

  /** Everything collected comes from some element, and elements that contribute at most one item make at most one each. */
  lemma {:induction false} CollectSound<T, U>(xs: seq<T>, f: T -> seq<U>)
    ensures forall k | 0 <= k < |Collect(xs, f)| :: exists i | 0 <= i < |xs| :: Collect(xs, f)[k] in f(xs[i])
    ensures (forall i | 0 <= i < |xs| :: |f(xs[i])| <= 1) ==> |Collect(xs, f)| <= |xs|
  {
    if xs != [] {
      CollectSound(xs[1..], f);
      var head := f(xs[0]);
      var rest := Collect(xs[1..], f);
      var r := Collect(xs, f);
      assert r == head + rest;
      forall k | 0 <= k < |r| ensures exists i | 0 <= i < |xs| :: r[k] in f(xs[i]) {
        if k >= |head| {
          var j :| 0 <= j < |xs[1..]| && rest[k - |head|] in f(xs[1..][j]);
          assert r[k] in f(xs[j + 1]);
        } else {
          assert r[k] in f(xs[0]);
        }
      }
      if forall i | 0 <= i < |xs| :: |f(xs[i])| <= 1 {
        assert forall i | 0 <= i < |xs[1..]| :: |f(xs[1..][i])| <= 1 by {
          forall i | 0 <= i < |xs[1..]| ensures |f(xs[1..][i])| <= 1 {
            assert xs[1..][i] == xs[i + 1];
          }
        }
        assert |head| <= 1 && |rest| <= |xs| - 1;
      }
    } else {
      assert Collect(xs, f) == [];
    }
  }

  /** Every element's contribution is collected. */
  lemma {:induction false} CollectComplete<T, U>(xs: seq<T>, f: T -> seq<U>, i: nat, y: U)
    requires i < |xs| && y in f(xs[i])
    ensures y in Collect(xs, f)
  {
    CollectAppend(xs[..i], xs[i..], f);
    assert xs == xs[..i] + xs[i..];
    assert xs[i..] == [xs[i]] + xs[i + 1..];
    assert Collect(xs[i..], f) == f(xs[i]) + Collect(xs[i + 1..], f);
  }

  /** The ids the capture loop pushes, in element order. */
  function OrderIds(texts: seq<Option<string>>): seq<string> {
    Collect(texts, Captured)
  }

  /** Each captured id is the id of some element, and there are no more ids than elements. */
  lemma OrderIdsSound(texts: seq<Option<string>>)
    ensures |OrderIds(texts)| <= |texts|
    ensures forall k | 0 <= k < |OrderIds(texts)| ::
              exists i | 0 <= i < |texts| :: ExtractOrderId(texts[i]) == Some(OrderIds(texts)[k])
  {
    var r := OrderIds(texts);
    CollectSound(texts, Captured);
    forall k | 0 <= k < |r| ensures exists i | 0 <= i < |texts| :: ExtractOrderId(texts[i]) == Some(r[k]) {
      var i :| 0 <= i < |texts| && r[k] in Captured(texts[i]);
      assert ExtractOrderId(texts[i]) == Some(r[k]);
    }
  }

  /** Capturing a page split in two is capturing each part, one after the other. */
  lemma OrderIdsAppend(a: seq<Option<string>>, b: seq<Option<string>>)
    ensures OrderIds(a + b) == OrderIds(a) + OrderIds(b)
  {
    CollectAppend(a, b, Captured);
  }

  /** Every element with a usable text contributes its id. */
  lemma OrderIdsComplete(texts: seq<Option<string>>, i: nat)
    requires i < |texts| && ExtractOrderId(texts[i]).Some?
    ensures ExtractOrderId(texts[i]).value in OrderIds(texts)
  {
    CollectComplete(texts, Captured, i, ExtractOrderId(texts[i]).value);
  }

  /** The capture loop over the confirmation elements. */
  method CollectOrderIds(texts: seq<Option<string>>) returns (orderIds: seq<string>)
    ensures orderIds == OrderIds(texts)
  {
    orderIds := [];
    for i := 0 to |texts|
      invariant orderIds == Collect(texts[..i], Captured)
    {
      var orderId := ExtractOrderId(texts[i]);
      if orderId.Some? {
        orderIds := orderIds + [orderId.value];
      }
      CollectOne(texts, i);
    }
    assert texts[..|texts|] == texts;
  }

  /** One more element adds its captured id, if any, at the end. */
  lemma CollectOne(texts: seq<Option<string>>, i: nat)
    requires i < |texts|
    ensures Collect(texts[..i + 1], Captured) == Collect(texts[..i], Captured) + Captured(texts[i])
  {
    CollectAppend(texts[..i], [texts[i]], Captured);
    assert texts[..i + 1] == texts[..i] + [texts[i]];
    assert Collect([texts[i]], Captured) == Captured(texts[i]) + Collect([texts[i]][1..], Captured);
    assert [texts[i]][1..] == [];
  }

  // ---------------------------------------------------------------------------------------
  // Checking the order history
  // ---------------------------------------------------------------------------------------

  /**
   * A row of the order-history table: the text of its `th` cell and the text that the
   * details page shows as order id once the row's View button is clicked.
   */
  datatype Row = Row(header: Option<string>, details: Option<string>)

  /** `orderId === rowOrderId?.trim()`: a missing header never matches. */
  predicate RowHolds(row: Row, orderId: string) {
    row.header.Some? && Trim(row.header.value) == orderId
  }

  function RowFilter(orderId: string): Row -> bool {
    (row: Row) => RowHolds(row, orderId)
  }

  /** `expect(detailsOrderId?.trim()).toBe(orderId)`. */
  predicate DetailsShow(row: Row, orderId: string) {
    row.details.Some? && Trim(row.details.value) == orderId
  }

  /** The row the scan opens for `orderId`: the first whose trimmed header is the id. */
  function FirstRowFor(rows: seq<Row>, orderId: string): Option<nat> {
    FirstWhere(rows, RowFilter(orderId))
  }

  /** The row scan `for (let i = 0; i < rowCount; i++) { if (...) { ...; break } }`. */
  method FindOrderRow(rows: seq<Row>, orderId: string) returns (found: Option<nat>)
    ensures found == FirstRowFor(rows, orderId)
  {
    found := None;
    var i := 0;
    while i < |rows|
      invariant 0 <= i <= |rows|
      invariant FirstFrom(rows, RowFilter(orderId), 0) == FirstFrom(rows, RowFilter(orderId), i)
      decreases |rows| - i
    {
      if RowHolds(rows[i], orderId) {
        found := Some(i);
        break;
      }
      i := i + 1;
    }
  }

  /** The row opened holds the id in its header and no earlier row does; no row is opened when none does. */
  lemma FirstRowForMeaning(rows: seq<Row>, orderId: string)
    ensures var found := FirstRowFor(rows, orderId);
            && (found.Some? ==> found.value < |rows| && rows[found.value].header.Some?
                                && Trim(rows[found.value].header.value) == orderId)
            && (found.Some? ==> forall j | 0 <= j < found.value ::
                                  !(rows[j].header.Some? && Trim(rows[j].header.value) == orderId))
            && (found.None? <==> forall i | 0 <= i < |rows| ::
                                   !(rows[i].header.Some? && Trim(rows[i].header.value) == orderId))
  {
    FirstWhereMeaning(rows, RowFilter(orderId));
    assert forall j | 0 <= j < |rows| ::
      RowFilter(orderId)(rows[j]) == (rows[j].header.Some? && Trim(rows[j].header.value) == orderId);
  }

  /** The result of the history check: every opened row passed, or the id whose check failed first. */
  datatype Verdict =
    | AllVerified
    | DetailsMismatch(orderId: string)
    /** Only the strict check below reports an id that no row of the table holds. */
    | OrderNotListed(orderId: string)

  /** The check of `orderId` fails: its row exists and its details page shows another id. */
  predicate CheckFails(rows: seq<Row>, orderId: string) {
    var found := FirstRowFor(rows, orderId);
    found.Some? && !DetailsShow(rows[found.value], orderId)
  }

  /**
   * The history check as the scripts run it: the verdict and the rows opened, in order; an
   * id with no row in the table is passed over.
   */
  function CheckOrders(rows: seq<Row>, orderIds: seq<string>): (r: (Verdict, seq<nat>))
    ensures !r.0.OrderNotListed?
    ensures |r.1| <= |orderIds|
    ensures forall k | 0 <= k < |r.1| :: r.1[k] < |rows|
  {
    if orderIds == [] then (AllVerified, [])
    else
      var found := FirstRowFor(rows, orderIds[0]);
      if found.Some? && !DetailsShow(rows[found.value], orderIds[0]) then
        (DetailsMismatch(orderIds[0]), [found.value])
      else
        var rest := CheckOrders(rows, orderIds[1..]);
        (rest.0, (if found.Some? then [found.value] else []) + rest.1)
  }

  /** The check passes exactly when no id's check fails. */
  lemma {:induction false} CheckOrdersPasses(rows: seq<Row>, orderIds: seq<string>)
    ensures CheckOrders(rows, orderIds).0 == AllVerified
        <==> forall k | 0 <= k < |orderIds| :: !CheckFails(rows, orderIds[k])
  {
    if orderIds != [] {
      CheckOrdersPasses(rows, orderIds[1..]);
      assert forall k | 1 <= k < |orderIds| :: orderIds[k] == orderIds[1..][k - 1];
    }
  }

  /**
   * When the check of `orderIds[f]` fails and no earlier one does, the verdict names
   * `orderIds[f]`, and that id's row is the last one opened.
   */
  lemma {:induction false} CheckOrdersFirstFailure(rows: seq<Row>, orderIds: seq<string>, f: nat)
    requires f < |orderIds| && CheckFails(rows, orderIds[f])
    requires forall k | 0 <= k < f :: !CheckFails(rows, orderIds[k])
    ensures CheckOrders(rows, orderIds).0 == DetailsMismatch(orderIds[f])
    ensures CheckOrders(rows, orderIds).1 != []
    ensures CheckOrders(rows, orderIds).1[|CheckOrders(rows, orderIds).1| - 1] == FirstRowFor(rows, orderIds[f]).value
  {
    if f > 0 {
      assert !CheckFails(rows, orderIds[0]);
      assert forall k | 0 <= k < f - 1 :: orderIds[1..][k] == orderIds[k + 1];
      CheckOrdersFirstFailure(rows, orderIds[1..], f - 1);
    }
  }

  /**
   * The outer loop `for (const orderId of orderIds)`: each id's row is opened and its
   * details compared; the first failed `expect` ends the test.
   */
  method VerifyOrders(orderIds: seq<string>, rows: seq<Row>) returns (verdict: Verdict, visited: seq<nat>)
    ensures (verdict, visited) == CheckOrders(rows, orderIds)
  {
    verdict := AllVerified;
    visited := [];
    var k := 0;
    assert orderIds[k..] == orderIds;
    while k < |orderIds|
      invariant 0 <= k <= |orderIds|
      invariant CheckOrders(rows, orderIds).0 == CheckOrders(rows, orderIds[k..]).0
      invariant CheckOrders(rows, orderIds).1 == visited + CheckOrders(rows, orderIds[k..]).1
      decreases |orderIds| - k
    {
      var orderId := orderIds[k];
      CheckOrdersAt(rows, orderIds, k);
      var found := FindOrderRow(rows, orderId);
      ghost var before := visited;
      if found.Some? {
        visited := visited + [found.value];
        if !DetailsShow(rows[found.value], orderId) {
          verdict := DetailsMismatch(orderId);
          return;
        }
      }
      ghost var rest := CheckOrders(rows, orderIds[k + 1..]);
      assert visited + rest.1 == before + ((if found.Some? then [found.value] else []) + rest.1);
      k := k + 1;
    }
    assert orderIds[k..] == [];
    assert visited + [] == visited;
  }

  /** The check of the ids from position `k` on, one step unfolded. */
  lemma CheckOrdersAt(rows: seq<Row>, orderIds: seq<string>, k: nat)
    requires k < |orderIds|
    ensures var found := FirstRowFor(rows, orderIds[k]);
            var rest := CheckOrders(rows, orderIds[k + 1..]);
            CheckOrders(rows, orderIds[k..])
              == if found.Some? && !DetailsShow(rows[found.value], orderIds[k]) then (DetailsMismatch(orderIds[k]), [found.value])
                 else (rest.0, (if found.Some? then [found.value] else []) + rest.1)
  {
    assert orderIds[k..][0] == orderIds[k] && orderIds[k..][1..] == orderIds[k + 1..];
  }

  // ---------------------------------------------------------------------------------------
  // Orders missing from the history
  // ---------------------------------------------------------------------------------------

  /**
   * The scripts' check passes over an id that no row holds: when none of the captured
   * orders is in the history, nothing is opened and the verdict is still that all orders
   * were verified.
   */
  lemma {:induction false} UnlistedOrdersPass(rows: seq<Row>, orderIds: seq<string>)
    requires forall k | 0 <= k < |orderIds| :: FirstRowFor(rows, orderIds[k]).None?
    ensures CheckOrders(rows, orderIds) == (AllVerified, [])
  {
    if orderIds != [] {
      assert forall k | 1 <= k < |orderIds| :: orderIds[k] == orderIds[1..][k - 1];
      UnlistedOrdersPass(rows, orderIds[1..]);
      assert CheckOrders(rows, orderIds).1 == [];
    }
  }

  /**
   * A history whose one row holds another order: the scripts' check of the captured order
   * passes without opening a row, while the strict check reports the order as not listed.
   */
  lemma UnlistedOrderExample()
    ensures CheckOrders([Row(Some("other"), Some("other"))], ["abc123"]) == (AllVerified, [])
    ensures CheckOrdersStrict([Row(Some("other"), Some("other"))], ["abc123"]).0 == OrderNotListed("abc123")
  {
    var rows := [Row(Some("other"), Some("other"))];
    var ids := ["abc123"];
    OtherOrderNotFound();
    UnlistedOrdersPass(rows, ids);
    CheckOrdersStrictUnlisted(rows, ids, 0);
  }

  lemma OtherOrderNotFound()
    ensures FirstRowFor([Row(Some("other"), Some("other"))], "abc123").None?
  {
    var rows := [Row(Some("other"), Some("other"))];
    assert Trimmed("other");
    assert !RowHolds(rows[0], "abc123");
    FirstWhereMeaning(rows, RowFilter("abc123"));
  }

  /** The check with a missing order reported as a failure. */
  function CheckOrdersStrict(rows: seq<Row>, orderIds: seq<string>): (Verdict, seq<nat>) {
    if orderIds == [] then (AllVerified, [])
    else
      var found := FirstRowFor(rows, orderIds[0]);
      if found.None? then (OrderNotListed(orderIds[0]), [])
      else if !DetailsShow(rows[found.value], orderIds[0]) then (DetailsMismatch(orderIds[0]), [found.value])
      else
        var rest := CheckOrdersStrict(rows, orderIds[1..]);
        (rest.0, [found.value] + rest.1)
  }

  /** The order is listed and its details page shows it. */
  predicate Verified(rows: seq<Row>, orderId: string) {
    var found := FirstRowFor(rows, orderId);
    found.Some? && DetailsShow(rows[found.value], orderId)
  }

  /** The strict check passes exactly when every captured order is listed and shows its own id. */
  lemma {:induction false} CheckOrdersStrictPasses(rows: seq<Row>, orderIds: seq<string>)
    ensures CheckOrdersStrict(rows, orderIds).0 == AllVerified
        <==> forall k | 0 <= k < |orderIds| :: Verified(rows, orderIds[k])
  {
    if orderIds != [] {
      CheckOrdersStrictPasses(rows, orderIds[1..]);
      assert forall k | 1 <= k < |orderIds| :: orderIds[k] == orderIds[1..][k - 1];
    }
  }

  /** Where every order is listed, the strict check and the scripts' check agree. */
  lemma {:induction false} CheckOrdersStrictAgrees(rows: seq<Row>, orderIds: seq<string>)
    requires forall k | 0 <= k < |orderIds| :: FirstRowFor(rows, orderIds[k]).Some?
    ensures CheckOrdersStrict(rows, orderIds) == CheckOrders(rows, orderIds)
  {
    if orderIds != [] {
      assert forall k | 1 <= k < |orderIds| :: orderIds[k] == orderIds[1..][k - 1];
      CheckOrdersStrictAgrees(rows, orderIds[1..]);
    }
  }

  /** The strict check reports the first order missing from the history. */
  lemma {:induction false} CheckOrdersStrictUnlisted(rows: seq<Row>, orderIds: seq<string>, f: nat)
    requires f < |orderIds|
    requires forall k | 0 <= k < f :: Verified(rows, orderIds[k])
    requires FirstRowFor(rows, orderIds[f]).None?
    ensures CheckOrdersStrict(rows, orderIds).0 == OrderNotListed(orderIds[f])
  {
    if f > 0 {
      assert forall k | 0 <= k < f - 1 :: orderIds[1..][k] == orderIds[k + 1];
      CheckOrdersStrictUnlisted(rows, orderIds[1..], f - 1);
    }
  }
}
