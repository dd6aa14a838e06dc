/**
 * The date-picker scenario: a target date given as year text, full English month name and
 * day text is turned into `MM/DD/YYYY`, the decade view of the calendar is paged until the
 * target year is visible, and the month and day buttons are chosen by their text.
 *
 * The calendar itself is external state: a `DecadeView` holds the first year shown and the
 * number of years per page, and its buttons move that window by one page.
 */
module Calendar {
  import opened Wrappers
  import opened Text
  import opened Numbers
  import opened Locators

  // ---------------------------------------------------------------------------------------
  // Month names and the expected date string
  // ---------------------------------------------------------------------------------------

  const MonthNames: seq<string> := [
    "January", "February", "March", "April", "May", "June",
    "July", "August", "September", "October", "November", "December"]

  /** The script's `monthMap` literal. */
  const MonthMap: map<string, string> := map[
    "January" := "01", "February" := "02", "March" := "03", "April" := "04",
    "May" := "05", "June" := "06", "July" := "07", "August" := "08",
    "September" := "09", "October" := "10", "November" := "11", "December" := "12"]

  /**
   * The members a plain object literal such as `monthMap` inherits from `Object.prototype`.
   * Looking one of them up gives a built-in function, or for `__proto__` the prototype object
   * itself; both are truthy, so `|| '01'` lets them through.
   */
  const InheritedNames: set<string> := {
    "constructor", "hasOwnProperty", "isPrototypeOf", "propertyIsEnumerable",
    "toLocaleString", "toString", "valueOf",
    "__defineGetter__", "__defineSetter__", "__lookupGetter__", "__lookupSetter__", "__proto__"}

  /**
   * The text a template literal makes of an inherited member, as Node prints it: the source
   * text of a built-in function (`constructor` is the function `Object`), or "[object Object]".
   */
  function InheritedText(name: string): string {
    if name == "__proto__" then "[object Object]"
    else "function " + (if name == "constructor" then "Object" else name) + "() { [native code] }"
  }

  /**
   * `monthMap[inputMonth] || '01'`: the two-digit month number for a month name, what an
   * inherited member turns into, and "01" for any other name. The fallback only ever replaces
   * a missing entry, so the result is never empty.
   */
  function MonthNumber(name: string): (r: string)
    ensures r != []
  {
    if name in MonthMap then MonthMap[name]
    else if name in InheritedNames then InheritedText(name)
    else "01"
  }

  /** Each of the twelve names maps to its 1-based position, written with two digits. */
  lemma MonthNumberIsPosition(i: nat)
    requires i < 12
    ensures MonthNumber(MonthNames[i]) == TwoDigits(i + 1) == Pad2(NatToString(i + 1))
    ensures DigitsValue(TwoDigits(i + 1)) == i + 1
  {
    if i < 6 { MonthEntryFirstHalf(i); } else { MonthEntrySecondHalf(i); }
    TwoDigitsOfSmall(i + 1);
  }

  /** The map's keys are the twelve month names. */
  lemma MonthMapKeys(name: string)
    ensures name in MonthMap <==> name in MonthNames
  {
    if name in MonthMap {
      assert name == MonthNames[0] || name == MonthNames[1] || name == MonthNames[2] || name == MonthNames[3]
          || name == MonthNames[4] || name == MonthNames[5] || name == MonthNames[6] || name == MonthNames[7]
          || name == MonthNames[8] || name == MonthNames[9] || name == MonthNames[10] || name == MonthNames[11];
    }
  }

  /** No inherited member is called like a month. */
  lemma InheritedNotMonth(name: string)
    requires name in InheritedNames
    ensures name !in MonthMap
  {
    assert 'a' <= name[1] <= 'z' || name[1] == '_';
  }

  /**
   * An inherited member comes out as its printed text: longer than two characters, never
   * starting with a digit, and without a '/'.
   */
  lemma {:induction false} MonthNumberInherited(name: string)
    requires name in InheritedNames
    ensures MonthNumber(name) == InheritedText(name)
    ensures |MonthNumber(name)| > 2 && !IsDigit(MonthNumber(name)[0])
    ensures '/' !in MonthNumber(name)
  {
    InheritedNotMonth(name);
    InheritedNoSlash(name);
  }

  lemma InheritedNoSlash(name: string)
    requires name in InheritedNames
    ensures '/' !in InheritedText(name)
  {
    if name == "__proto__" {
      assert '/' !in "[object Object]";
    } else {
      var n := if name == "constructor" then "Object" else name;
      InheritedLetters(name);
      NativeTextNoSlash(n);
    }
  }

  /** The printed text of a built-in function whose name is spelt with letters and '_' holds no '/'. */
  lemma NativeTextNoSlash(n: string)
    requires forall k | 0 <= k < |n| :: 'A' <= n[k] <= 'z'
    ensures '/' !in "function " + n + "() { [native code] }"
  {
    var head, tail := "function ", "() { [native code] }";
    assert '/' !in head;
    assert '/' !in tail;
    assert '/' !in n;
  }

  /** The inherited names are spelt with letters and '_' only. */
  lemma InheritedLetters(name: string)
    requires name in InheritedNames
    ensures forall k | 0 <= k < |name| :: 'A' <= name[k] <= 'z'
  {
    if name == "constructor" {
    } else if name == "hasOwnProperty" {
    } else if name == "isPrototypeOf" {
    } else if name == "propertyIsEnumerable" {
    } else if name == "toLocaleString" {
    } else if name == "toString" {
    } else if name == "valueOf" {
    } else if name == "__defineGetter__" {
    } else if name == "__defineSetter__" {
    } else if name == "__lookupGetter__" {
    } else if name == "__lookupSetter__" {
    } else {
      assert name == "__proto__";
    }
  }

  /**
   * Any other name, a misspelt or abbreviated one included, falls back to "01"; an inherited
   * member does not.
   */
  lemma MonthNumberFallback(name: string)
    ensures name !in MonthNames && name !in InheritedNames ==> MonthNumber(name) == "01"
    ensures name in InheritedNames ==> MonthNumber(name) != "01"
  {
    MonthMapKeys(name);
    if name in InheritedNames {
      MonthNumberInherited(name);
    }
  }

  /** The month number is two decimal digits exactly when the name is not an inherited member. */
  lemma MonthNumberDigits(name: string)
    ensures |MonthNumber(name)| == 2 && AllDigits(MonthNumber(name)) <==> name !in InheritedNames
  {
    if name in MonthNames {
      MonthNumberOfMonth(name);
      MonthMapKeys(name);
      if name in InheritedNames { InheritedNotMonth(name); }
    } else {
      MonthNumberFallback(name);
      if name in InheritedNames { MonthNumberInherited(name); }
    }
  }

  /** No month number holds a '/', so the date fields stay apart. */
  lemma MonthNumberNoSlash(name: string)
    ensures '/' !in MonthNumber(name)
  {
    if name in InheritedNames {
      MonthNumberInherited(name);
    } else {
      MonthNumberDigits(name);
    }
  }

  lemma MonthNumberOfMonth(name: string)
    requires name in MonthNames
    ensures exists i | 0 <= i < 12 :: MonthNames[i] == name && MonthNumber(name) == TwoDigits(i + 1)
  {
    var i :| 0 <= i < 12 && MonthNames[i] == name;
    MonthNumberIsPosition(i);
  }

  /**
   * "01" comes out for January and for every name that is neither a month nor an inherited
   * member, and for nothing else.
   */
  lemma MonthNumberDefault(name: string)
    ensures MonthNumber(name) == "01" <==> (name == MonthNames[0] || (name !in MonthNames && name !in InheritedNames))
  {
    if name in MonthNames {
      MonthDefaultOfMonth(name);
    } else {
      MonthNumberFallback(name);
    }
  }

  /** Of the twelve month names only January gives "01". */
  lemma MonthDefaultOfMonth(name: string)
    requires name in MonthNames
    ensures MonthNumber(name) == "01" <==> name == MonthNames[0]
  {
    var i :| 0 <= i < 12 && MonthNames[i] == name;
    MonthNumberIsPosition(i);
    MonthNumberIsPosition(0);
  }

  /** `k` written as exactly two decimal digits. */
  function TwoDigits(k: nat): (r: string)
    requires k < 100
    ensures |r| == 2 && AllDigits(r)
  {
    [DigitChar(k / 10), DigitChar(k % 10)]
  }

  lemma TwoDigitsOfSmall(k: nat)
    requires 0 < k < 100
    ensures Pad2(NatToString(k)) == TwoDigits(k)
    ensures DigitsValue(TwoDigits(k)) == k
  {
    var hi, lo := k / 10, k % 10;
    var t := TwoDigits(k);
    assert t == [DigitChar(hi), DigitChar(lo)];
    if k < 10 {
      assert hi == 0 && lo == k;
      assert NatToString(k) == [DigitChar(k)];
      assert Pad2(NatToString(k)) == ['0'] + [DigitChar(k)];
    } else {
      assert hi < 10;
      assert NatToString(hi) == [DigitChar(hi)];
      assert NatToString(k) == NatToString(hi) + [DigitChar(lo)];
      assert |NatToString(k)| == 2;
    }
    assert t[..1] == [DigitChar(hi)];
    assert DigitsValue(t[..1]) == hi by {
      assert t[..1][..0] == [];
    }
    assert DigitsValue(t) == hi * 10 + lo;
  }

  lemma MonthEntryFirstHalf(i: nat)
    requires i < 6
    ensures MonthNumber(MonthNames[i]) == TwoDigits(i + 1)
  {
    if i == 0 {
      assert MonthNames[0] == "January" && MonthMap["January"] == "01";
    } else if i == 1 {
      assert MonthNames[1] == "February" && MonthMap["February"] == "02";
    } else if i == 2 {
      assert MonthNames[2] == "March" && MonthMap["March"] == "03";
    } else if i == 3 {
      assert MonthNames[3] == "April" && MonthMap["April"] == "04";
    } else if i == 4 {
      assert MonthNames[4] == "May" && MonthMap["May"] == "05";
    } else {
      assert MonthNames[5] == "June" && MonthMap["June"] == "06";
    }
  }

  lemma MonthEntrySecondHalf(i: nat)
    requires 6 <= i < 12
    ensures MonthNumber(MonthNames[i]) == TwoDigits(i + 1)
  {
    if i == 6 {
      assert MonthNames[6] == "July" && MonthMap["July"] == "07";
    } else if i == 7 {
      assert MonthNames[7] == "August" && MonthMap["August"] == "08";
    } else if i == 8 {
      assert MonthNames[8] == "September" && MonthMap["September"] == "09";
    } else if i == 9 {
      assert MonthNames[9] == "October" && MonthMap["October"] == "10";
    } else if i == 10 {
      assert MonthNames[10] == "November" && MonthMap["November"] == "11";
    } else {
      assert MonthNames[11] == "December" && MonthMap["December"] == "12";
    }
  }

  /**
   * The template `${monthNumber}/${formattedDay}/${inputYear}`: splitting it on '/' gives the
   * month number, the padded day and the year back, when the day and year texts hold no '/'.
   */
  function ExpectedDate(inputMonth: string, inputDay: string, inputYear: string): (r: string)
    ensures '/' !in inputDay && '/' !in inputYear ==> Split(r, '/') == [MonthNumber(inputMonth), Pad2(inputDay), inputYear]
  {
    MonthNumberNoSlash(inputMonth);
    PadKeepsSlashes(inputDay);
    DateFields(MonthNumber(inputMonth), Pad2(inputDay), inputYear);
    MonthNumber(inputMonth) + "/" + Pad2(inputDay) + "/" + inputYear
  }

  /**
   * The template built from the three input fields the calendar fills in: splitting it on '/'
   * gives the padded month, the padded day and the year back, when no field holds a '/'.
   */
  function ActualDate(monthValue: string, dayValue: string, yearValue: string): (r: string)
    ensures '/' !in monthValue && '/' !in dayValue && '/' !in yearValue ==>
              Split(r, '/') == [Pad2(monthValue), Pad2(dayValue), yearValue]
  {
    PadKeepsSlashes(monthValue);
    PadKeepsSlashes(dayValue);
    DateFields(Pad2(monthValue), Pad2(dayValue), yearValue);
    Pad2(monthValue) + "/" + Pad2(dayValue) + "/" + yearValue
  }

  /** What the calendar shows in its month field afterwards: the month number without padding. */
  function MonthFieldValue(month: nat): string {
    NatToString(month + 1)
  }

  /** The three '/'-separated fields of a date string are read back by `Split`. */
  lemma {:induction false} DateFields(m: string, d: string, y: string)
    ensures '/' !in m && '/' !in d && '/' !in y ==> Split(m + "/" + d + "/" + y, '/') == [m, d, y]
  {
    if '/' !in m && '/' !in d && '/' !in y {
      var fields := [m, d, y];
      assert Join(fields, '/') == m + "/" + d + "/" + y by {
        assert Join(fields[1..], '/') == d + "/" + y by {
          assert fields[1..][1..] == [y];
        }
      }
      SplitJoin(fields, '/');
    }
  }

  lemma PadKeepsSlashes(s: string)
    ensures '/' in Pad2(s) <==> '/' in s
  {
    if |s| == 1 {
      assert Pad2(s) == ['0'] + s;
    }
  }

  /**
   * The final assertion compares the whole strings; when no field holds a '/', that is the
   * same as comparing the padded month, the padded day and the year one by one.
   */
  lemma {:induction false} DateCheckIsFieldwise(monthValue: string, dayValue: string, yearValue: string,
                                               inputMonth: string, inputDay: string, inputYear: string)
    requires '/' !in monthValue && '/' !in dayValue && '/' !in yearValue
    requires '/' !in inputDay && '/' !in inputYear
    ensures ActualDate(monthValue, dayValue, yearValue) == ExpectedDate(inputMonth, inputDay, inputYear)
        <==> (Pad2(monthValue) == MonthNumber(inputMonth) && Pad2(dayValue) == Pad2(inputDay)
              && yearValue == inputYear)
  {
    var actual := ActualDate(monthValue, dayValue, yearValue);
    var expected := ExpectedDate(inputMonth, inputDay, inputYear);
    if actual == expected {
      assert Split(actual, '/') == Split(expected, '/');
    }
  }

  /**
   * When the calendar fills the month field with the month number and the day field with the
   * day text, both unpadded, and the year field with the year text, the check passes.
   */
  lemma SelectedDateValidates(month: nat, inputDay: string, inputYear: string)
    requires month < 12
    ensures ActualDate(MonthFieldValue(month), inputDay, inputYear)
         == ExpectedDate(MonthNames[month], inputDay, inputYear)
  {
    MonthNumberIsPosition(month);
  }

  /** The worked example of the script's header comment. */
  lemma ExpectedDateExample()
    ensures ExpectedDate(MonthNames[9], "3", "1992") == "10/03/1992"
    ensures ActualDate("10", "3", "1992") == "10/03/1992"
  {
    assert MonthNames[9] == "October";
    MonthEntrySecondHalf(9);
    assert Pad2("3") == "03";
  }

  // ---------------------------------------------------------------------------------------
  // The decade label
  // ---------------------------------------------------------------------------------------

  /** The en dash between the two years of a decade label. */
  const EnDash: char := '\U{2013}'

  /**
   * The navigation label of a page showing `width` years from `start`, e.g. "2020 – 2031":
   * the en dash occurs once, splitting the label into the first year and the last year, each
   * with the space next to the dash.
   */
  function DecadeLabel(start: int, width: nat): (r: string)
    ensures Split(r, EnDash) == [IntToString(start) + " ", " " + IntToString(start + width - 1)]
  {
    var first := IntToString(start) + " ";
    var rest := " " + IntToString(start + width - 1);
    EnDashNotInNumber(start);
    EnDashNotInNumber(start + width - 1);
    assert EnDash !in first;
    assert EnDash !in rest;
    SplitAfterField(first, EnDash, rest);
    SplitFields(rest, EnDash);
    first + [EnDash] + rest
  }

  /**
   * `parseInt(decadeLabel?.split('–')[0]?.trim() || '0')`: the number before the first en
   * dash; a missing label, or nothing but white space before the dash, reads as 0.
   */
  function LabelStartYear(labelText: Option<string>): (r: Option<int>)
    ensures labelText.None? ==> r == Some(0)
    ensures labelText.Some? && AllSpace(Split(labelText.value, EnDash)[0]) ==> r == Some(0)
  {
    var head := if labelText.None? then "" else Trim(Split(labelText.value, EnDash)[0]);
    ParseZero();
    ParseInt(if head == [] then "0" else head)
  }

  lemma ParseZero()
    ensures ParseInt("0") == Some(0)
  {
    assert TrimStart("0") == "0";
    assert SignFree("0") == "0";
    DigitRunOfDigits("0");
  }

  lemma EnDashNotInNumber(i: int)
    ensures EnDash !in IntToString(i)
  {
    var s := IntToString(i);
    NatToStringIsDecimal(if i < 0 then -i else i);
    if i >= 0 {
      assert AllDigits(s);
    } else {
      assert s[1..] == NatToString(-i);
      assert AllDigits(s[1..]);
      forall k | 0 <= k < |s| ensures s[k] != EnDash {
        if k > 0 { assert s[k] == s[1..][k - 1]; }
      }
    }
  }

  /** The start year parsed from a page's label is the page's first year. */
  lemma {:induction false} LabelStartYearOfDecade(start: int, width: nat)
    ensures LabelStartYear(Some(DecadeLabel(start, width))) == Some(start)
  {
    var first := IntToString(start);
    assert Split(DecadeLabel(start, width), EnDash)[0] == first + " ";
    IntToStringTrimmed(start);
    TrimPadded("", first, " ");
    assert "" + first + " " == first + " ";
    ParseIntToString(start);
  }

  /** The label shape "2020 – 2029" quoted in the script's comments. */
  lemma LabelStartYearExample2020()
    ensures LabelStartYear(Some("2020" + " " + [EnDash] + " " + "2029")) == Some(2020)
  {
    LabelOfPage(2020, 10, "2020", "2029");
    LabelStartYearOfDecade(2020, 10);
  }

  /** The label shape "1990 – 2001" quoted in the script's comments: twelve years on a page. */
  lemma LabelStartYearExample1990()
    ensures LabelStartYear(Some("1990" + " " + [EnDash] + " " + "2001")) == Some(1990)
  {
    LabelOfPage(1990, 12, "1990", "2001");
    LabelStartYearOfDecade(1990, 12);
  }

  lemma LabelOfPage(start: nat, width: nat, first: string, last: string)
    requires 1000 <= start && start + width - 1 < 10000 && width > 0
    requires |first| == 4 && |last| == 4
    requires first == [DigitChar(start / 1000), DigitChar(start / 100 % 10),
                       DigitChar(start / 10 % 10), DigitChar(start % 10)]
    requires last == [DigitChar((start + width - 1) / 1000), DigitChar((start + width - 1) / 100 % 10),
                      DigitChar((start + width - 1) / 10 % 10), DigitChar((start + width - 1) % 10)]
    ensures DecadeLabel(start, width) == first + " " + [EnDash] + " " + last
  {
    FourDigitYear(start, first);
    FourDigitYear(start + width - 1, last);
  }

  lemma FourDigitYear(n: nat, s: string)
    requires 1000 <= n < 10000 && |s| == 4
    requires s == [DigitChar(n / 1000), DigitChar(n / 100 % 10), DigitChar(n / 10 % 10), DigitChar(n % 10)]
    ensures IntToString(n) == s
  {
    assert NatToString(n / 1000) == s[..1];
    assert NatToString(n / 100) == s[..2] by {
      assert (n / 100) / 10 == n / 1000;
    }
    assert NatToString(n / 10) == s[..3] by {
      assert (n / 10) / 10 == n / 100;
    }
  }

  // ---------------------------------------------------------------------------------------
  // Paging the decade view
  // ---------------------------------------------------------------------------------------

  datatype Direction = Previous | Next

  /** `if (targetYear < startYear)` picks the previous page; a `NaN` start year compares false. */
  function Toward(targetYear: int, startYear: Option<int>): (d: Direction)
    ensures d == Previous <==> startYear.Some? && targetYear < startYear.value
  {
    if startYear.Some? && targetYear < startYear.value then Previous else Next
  }

  /**
   * How a year button's text is compared with the input year: `HasText` is the script's
   * `filter({ hasText: inputYear })`; `ExactText` is whole-text equality.
   */
  datatype MatchMode = HasTextMatch | ExactText

  predicate YearLabelMatches(buttonText: string, inputYear: string, mode: MatchMode) {
    match mode
    case HasTextMatch => HasText(buttonText, inputYear)
    case ExactText => buttonText == inputYear
  }

  /** The years among `first .. first + count - 1` that satisfy `keep`, in increasing order. */
  function YearsWhere(first: int, count: nat, keep: int -> bool): (r: seq<int>)
    ensures |r| <= count
    decreases count
  {
    if count == 0 then []
    else
      var rest := YearsWhere(first + 1, count - 1, keep);
      if keep(first) then [first] + rest else rest
  }

  /** The filter keeps every year of the range that passes, nothing else, in increasing order. */
  lemma {:induction false} YearsWhereMeaning(first: int, count: nat, keep: int -> bool)
    ensures forall k | 0 <= k < |YearsWhere(first, count, keep)| ::
              first <= YearsWhere(first, count, keep)[k] < first + count && keep(YearsWhere(first, count, keep)[k])
    ensures forall y | first <= y < first + count && keep(y) :: y in YearsWhere(first, count, keep)
    ensures forall i, j | 0 <= i < j < |YearsWhere(first, count, keep)| ::
              YearsWhere(first, count, keep)[i] < YearsWhere(first, count, keep)[j]
    decreases count
  {
    if count > 0 {
      YearsWhereMeaning(first + 1, count - 1, keep);
      var rest := YearsWhere(first + 1, count - 1, keep);
      var r := YearsWhere(first, count, keep);
      assert r == if keep(first) then [first] + rest else rest;
      forall y | first <= y < first + count && keep(y) ensures y in r {
        if y != first { assert y in rest; }
      }
    }
  }

  /** A year of the range that passes the filter leaves the filtered list non-empty. */
  lemma YearsWhereHolds(first: int, count: nat, keep: int -> bool, y: int)
    requires first <= y < first + count && keep(y)
    ensures YearsWhere(first, count, keep) != []
  {
    YearsWhereMeaning(first, count, keep);
  }

  /** The years of the page whose button passes the filter, in page order. */
  function MatchingYears(first: int, count: nat, inputYear: string, mode: MatchMode): (r: seq<int>)
    ensures forall k | 0 <= k < |r| :: first <= r[k] < first + count
    ensures forall k | 0 <= k < |r| :: YearLabelMatches(IntToString(r[k]), inputYear, mode)
    ensures forall y | first <= y < first + count && YearLabelMatches(IntToString(y), inputYear, mode) :: y in r
    ensures forall i, j | 0 <= i < j < |r| :: r[i] < r[j]
  {
    YearsWhereMeaning(first, count, YearFilter(inputYear, mode));
    YearsWhere(first, count, YearFilter(inputYear, mode))
  }

  /** The year-button locator's filter, as a test on the year a button shows. */
  function YearFilter(inputYear: string, mode: MatchMode): int -> bool {
    y => YearLabelMatches(IntToString(y), inputYear, mode)
  }

  /** The year-button filter `{ hasText: inputYear }` as a test on a button's text. */
  function ButtonFilter(inputYear: string, mode: MatchMode): string -> bool {
    (b: string) => YearLabelMatches(b, inputYear, mode)
  }

  /** The years shown by the buttons at positions `idx` of a page whose first year is `first`. */
  function YearsAt(first: int, idx: seq<nat>): (r: seq<int>)
    ensures |r| == |idx|
    ensures forall k | 0 <= k < |idx| :: r[k] == first + idx[k]
  {
    seq(|idx|, (k: int) requires 0 <= k < |idx| => first + idx[k])
  }

  /** Two strictly increasing sequences with the same elements are equal. */
  lemma {:induction false} SortedEqual(a: seq<int>, b: seq<int>)
    requires forall i, j | 0 <= i < j < |a| :: a[i] < a[j]
    requires forall i, j | 0 <= i < j < |b| :: b[i] < b[j]
    requires forall x :: x in a <==> x in b
    ensures a == b
    decreases |a|
  {
    if a != [] {
      assert a[0] in a;
      assert a[0] in b;
    }
    if b != [] {
      assert b[0] in b;
      assert b[0] in a;
    }
    if a != [] {
      assert a[0] == b[0];
      forall x ensures x in a[1..] <==> x in b[1..] {
        if x in a[1..] {
          var k :| 0 <= k < |a[1..]| && a[1..][k] == x;
          assert a[k + 1] == x && a[0] < a[k + 1];
          assert x in a;
        }
        if x in b[1..] {
          var k :| 0 <= k < |b[1..]| && b[1..][k] == x;
          assert b[k + 1] == x && b[0] < b[k + 1];
          assert x in b;
        }
      }
      SortedEqual(a[1..], b[1..]);
      assert a == [a[0]] + a[1..] && b == [b[0]] + b[1..];
    }
  }

  /** `inputYear` is the canonical text of a year: what `parseInt` reads is what a button shows. */
  predicate IsYearText(inputYear: string) {
    ParseInt(inputYear).Some? && IntToString(ParseInt(inputYear).value) == inputYear
  }

  predicate OnPage(year: int, start: int, width: nat) {
    start <= year < start + width
  }

  /** A page that shows the target year always has a button passing either filter. */
  lemma TargetPageMatches(target: int, start: int, width: nat, inputYear: string, mode: MatchMode)
    requires inputYear == IntToString(target) && OnPage(target, start, width)
    ensures target in MatchingYears(start, width, inputYear, mode)
  {
    HasTextItself(inputYear);
  }

  /** With whole-text equality only the target year itself passes the filter. */
  lemma {:induction false} ExactMatchIsTarget(target: int, first: int, count: nat, inputYear: string)
    requires inputYear == IntToString(target)
    ensures MatchingYears(first, count, inputYear, ExactText) == if OnPage(target, first, count) then [target] else []
    decreases count
  {
    if count > 0 {
      ExactMatchIsTarget(target, first + 1, count - 1, inputYear);
      IntToStringInjective(first, target);
      var rest := MatchingYears(first + 1, count - 1, inputYear, ExactText);
      if first == target {
        assert !OnPage(target, first + 1, count - 1);
        assert rest == [];
      } else {
        assert OnPage(target, first, count) <==> OnPage(target, first + 1, count - 1);
      }
    }
  }

  /** The first year shown after `k` clicks in direction `d`. */
  function Shift(start: int, d: Direction, k: nat, width: nat): int {
    if d == Previous then start - k * width else start + k * width
  }

  /** The number of pages between `start` and the page that shows `target`. */
  function PagesToTarget(target: int, start: int, width: nat): nat
    requires width > 0
  {
    if target < start then (start - target + width - 1) / width else (target - start) / width
  }

  /** The calendar's decade view: the first year shown and the number of years per page. */
  class DecadeView {
    var start: int
    const width: nat

    constructor (start: int, width: nat)
      requires width > 0
      ensures this.start == start && this.width == width
    {
      this.start := start;
      this.width := width;
    }

    /** The text of the navigation label button. */
    function Label(): string
      reads this
    {
      DecadeLabel(start, width)
    }

    /** The texts of the year buttons, in page order. */
    function YearButtons(): (r: seq<string>)
      reads this
      ensures |r| == width
      ensures forall i | 0 <= i < width :: r[i] == IntToString(start + i)
    {
      var first := start;
      seq(width, i => IntToString(first + i))
    }

    /** The previous-decade arrow. */
    method ClickPrevious()
      modifies this
      ensures start == old(start) - width
    {
      start := start - width;
    }

    /** The next-decade arrow. */
    method ClickNext()
      modifies this
      ensures start == old(start) + width
    {
      start := start + width;
    }
  }

  /**
   * The years the search looks for on a page are the years of the buttons the page shows
   * that pass the locator's filter, in button order.
   */
  lemma ButtonsShowMatchingYears(view: DecadeView, inputYear: string, mode: MatchMode)
    ensures MatchingYears(view.start, view.width, inputYear, mode)
         == YearsAt(view.start, IndicesWhere(view.YearButtons(), ButtonFilter(inputYear, mode)))
  {
    TextsShowMatchingYears(view.start, view.width, view.YearButtons(), inputYear, mode);
  }

  lemma TextsShowMatchingYears(first: int, count: nat, texts: seq<string>, inputYear: string, mode: MatchMode)
    requires |texts| == count && forall i | 0 <= i < count :: texts[i] == IntToString(first + i)
    ensures MatchingYears(first, count, inputYear, mode) == YearsAt(first, IndicesWhere(texts, ButtonFilter(inputYear, mode)))
  {
    var keep := ButtonFilter(inputYear, mode);
    var idx := IndicesWhere(texts, keep);
    var ys := YearsAt(first, idx);
    var m := MatchingYears(first, count, inputYear, mode);
    forall x | x in ys ensures x in m {
      var k :| 0 <= k < |ys| && ys[k] == x;
      ButtonYearMatches(first, count, texts, inputYear, mode, k);
    }
    forall x | x in m ensures x in ys {
      MatchingYearHasButton(first, count, texts, inputYear, mode, x);
    }
    YearsAtSorted(first, texts, keep);
    SortedEqual(m, ys);
  }

  /** The years of the passing buttons increase with their positions. */
  lemma YearsAtSorted(first: int, texts: seq<string>, keep: string -> bool)
    ensures var ys := YearsAt(first, IndicesWhere(texts, keep));
            forall i, j | 0 <= i < j < |ys| :: ys[i] < ys[j]
  {
    IndicesWhereMeaning(texts, keep);
  }

  /** The year of a button that passes the filter is a matching year. */
  lemma ButtonYearMatches(first: int, count: nat, texts: seq<string>, inputYear: string, mode: MatchMode, k: nat)
    requires |texts| == count && forall i | 0 <= i < count :: texts[i] == IntToString(first + i)
    requires k < |IndicesWhere(texts, ButtonFilter(inputYear, mode))|
    ensures first + IndicesWhere(texts, ButtonFilter(inputYear, mode))[k] in MatchingYears(first, count, inputYear, mode)
  {
    var keep := ButtonFilter(inputYear, mode);
    var i := IndicesWhere(texts, keep)[k];
    IndicesWhereMeaning(texts, keep);
    assert keep(texts[i]);
    assert YearLabelMatches(IntToString(first + i), inputYear, mode);
  }

  /** A matching year is the year of a button that passes the filter. */
  lemma MatchingYearHasButton(first: int, count: nat, texts: seq<string>, inputYear: string, mode: MatchMode, x: int)
    requires |texts| == count && forall i | 0 <= i < count :: texts[i] == IntToString(first + i)
    requires x in MatchingYears(first, count, inputYear, mode)
    ensures x in YearsAt(first, IndicesWhere(texts, ButtonFilter(inputYear, mode)))
  {
    var keep := ButtonFilter(inputYear, mode);
    var idx := IndicesWhere(texts, keep);
    IndicesWhereMeaning(texts, keep);
    var i: nat := x - first;
    assert texts[i] == IntToString(x);
    assert keep(texts[i]);
    var k :| 0 <= k < |idx| && idx[k] == i;
    assert YearsAt(first, idx)[k] == x;
  }

  /**
   * The script's `while (true)` search: if a year button passes the filter, click it and stop;
   * otherwise read the label, parse its start year and page toward the target.
   *
   * Every click goes the same way, each page before the last showed no matching button, the
   * search never passes the page that holds the target, and it needs at most as many clicks as
   * there are pages between the first page and the target's.
   */
  method SelectYear(view: DecadeView, inputYear: string, mode: MatchMode)
      returns (outcome: ClickOutcome<int>, clicks: seq<Direction>)
    requires view.width > 0
    requires IsYearText(inputYear)
    modifies view
    ensures var target := ParseInt(inputYear).value;
            var d := Toward(target, Some(old(view.start)));
            && (forall k | 0 <= k < |clicks| :: clicks[k] == d)
            && view.start == Shift(old(view.start), d, |clicks|, view.width)
            && (forall k | 0 <= k < |clicks| ::
                  MatchingYears(Shift(old(view.start), d, k, view.width), view.width, inputYear, mode) == [])
            && MatchingYears(view.start, view.width, inputYear, mode) != []
            && outcome == Click(MatchingYears(view.start, view.width, inputYear, mode))
            && (d == Previous ==> target < view.start + view.width)
            && (d == Next ==> view.start <= target)
            && |clicks| <= PagesToTarget(target, old(view.start), view.width)
    ensures mode == ExactText ==> outcome == Clicked(ParseInt(inputYear).value)
    ensures outcome == Click(YearsAt(view.start, IndicesWhere(view.YearButtons(), ButtonFilter(inputYear, mode))))
  {
    var targetYear := ParseInt(inputYear).value;
    var keep := YearFilter(inputYear, mode);
    TargetPageMatches(targetYear, targetYear, 1, inputYear, mode);
    assert keep(targetYear);
    var matches;
    matches, clicks := PageToYear(view, targetYear, keep);
    outcome := Click(matches);
    if mode == ExactText {
      ExactMatchIsTarget(targetYear, view.start, view.width, inputYear);
    }
    ButtonsShowMatchingYears(view, inputYear, mode);
  }

  /**
   * The paging loop of the year search, for any button filter that the target year passes:
   * it stops on the first page with a passing button and returns that page's passing years.
   */
  method PageToYear(view: DecadeView, targetYear: int, keep: int -> bool)
      returns (matches: seq<int>, clicks: seq<Direction>)
    requires view.width > 0 && keep(targetYear)
    modifies view
    ensures var d := Toward(targetYear, Some(old(view.start)));
            && (forall k | 0 <= k < |clicks| :: clicks[k] == d)
            && view.start == Shift(old(view.start), d, |clicks|, view.width)
            && (forall k | 0 <= k < |clicks| :: YearsWhere(Shift(old(view.start), d, k, view.width), view.width, keep) == [])
            && matches == YearsWhere(view.start, view.width, keep) && matches != []
            && (d == Previous ==> targetYear < view.start + view.width)
            && (d == Next ==> view.start <= targetYear)
            && |clicks| <= PagesToTarget(targetYear, old(view.start), view.width)
  {
    ghost var first := view.start;
    ghost var d := Toward(targetYear, Some(first));
    var width := view.width;
    clicks := [];
    while true
      invariant forall k | 0 <= k < |clicks| :: clicks[k] == d
      invariant view.start == Shift(first, d, |clicks|, width)
      invariant forall k | 0 <= k < |clicks| :: YearsWhere(Shift(first, d, k, width), width, keep) == []
      invariant d == Previous ==> targetYear < view.start + width
      invariant d == Next ==> view.start <= targetYear
      invariant |clicks| > 0 && d == Previous ==> targetYear < Shift(first, d, |clicks| - 1, width)
      decreases Distance(targetYear, view.start, width)
    {
      matches := YearsWhere(view.start, width, keep);
      if |matches| > 0 {
        break;
      }
      if OnPage(targetYear, view.start, width) {
        YearsWhereHolds(view.start, width, keep, targetYear);
        assert false;
      }
      ghost var seen := clicks;
      ghost var before := view.start;
      StepTowardTarget(targetYear, first, d, |clicks|, width, before);
      var step := TurnPage(view, targetYear);
      assert step == d;
      clicks := clicks + [step];
      assert view.start == Shift(first, d, |clicks|, width);
      assert forall k | 0 <= k < |clicks| :: YearsWhere(Shift(first, d, k, width), width, keep) == [] by {
        forall k | 0 <= k < |clicks| ensures YearsWhere(Shift(first, d, k, width), width, keep) == [] {
          if k < |seen| { } else { assert k == |seen|; }
        }
      }
    }
    ClickBound(targetYear, first, d, |clicks|, width, view.start);
  }

  /** How far the page starting at `start` is from showing `target`; zero once it does. */
  function Distance(target: int, start: int, width: nat): nat {
    if OnPage(target, start, width) then 0 else Abs(target - start) + 1
  }

  /**
   * A page that does not show the target is left toward it: the direction read from its label
   * is the search's direction, and the next page is nearer the target without passing it.
   */
  lemma StepTowardTarget(target: int, first: int, d: Direction, k: nat, width: nat, start: int)
    requires width > 0 && start == Shift(first, d, k, width)
    requires d == Previous <==> target < first
    requires d == Previous ==> target < start + width
    requires d == Next ==> start <= target
    requires !OnPage(target, start, width)
    ensures Toward(target, Some(start)) == d
    ensures Shift(first, d, k + 1, width) == if d == Previous then start - width else start + width
    ensures d == Previous ==> target < Shift(first, d, k + 1, width) + width && target < start
    ensures d == Next ==> Shift(first, d, k + 1, width) <= target
    ensures Distance(target, Shift(first, d, k + 1, width), width) < Distance(target, start, width)
  {
    ShiftStep(first, d, k, width);
  }

  /**
   * One round of paging: read the navigation label, parse its start year, and click the
   * previous arrow when the target is before it, the next arrow otherwise.
   */
  method TurnPage(view: DecadeView, targetYear: int) returns (step: Direction)
    modifies view
    ensures step == Toward(targetYear, Some(old(view.start)))
    ensures view.start == if step == Previous then old(view.start) - view.width else old(view.start) + view.width
  {
    var decadeLabel := Some(view.Label());
    var startYear := LabelStartYear(decadeLabel);
    LabelStartYearOfDecade(view.start, view.width);
    if targetYear < startYear.GetOr(targetYear) {
      view.ClickPrevious();
      step := Previous;
    } else {
      view.ClickNext();
      step := Next;
    }
  }

  lemma ShiftStep(start: int, d: Direction, k: nat, width: nat)
    ensures d == Previous ==> Shift(start, d, k + 1, width) == Shift(start, d, k, width) - width
    ensures d == Next ==> Shift(start, d, k + 1, width) == Shift(start, d, k, width) + width
  {
    assert (k + 1) * width == k * width + width;
  }

  function Abs(x: int): nat {
    if x < 0 then -x else x
  }

  /** Euclidean-division bounds on the number of clicks, from where the search stopped. */
  lemma ClickBound(target: int, first: int, d: Direction, k: nat, width: nat, last: int)
    requires width > 0 && last == Shift(first, d, k, width)
    requires d == Previous <==> target < first
    requires d == Previous ==> target < last + width && (k > 0 ==> target < Shift(first, d, k - 1, width))
    requires d == Next ==> last <= target
    ensures k <= PagesToTarget(target, first, width)
  {
    if d == Previous && k > 0 {
      var a := first - target;
      assert (k - 1) * width < a;
      assert k * width == (k - 1) * width + width;
      DivLowerBound(k, a + width - 1, width);
    } else if d == Next {
      DivLowerBound(k, target - first, width);
    }
  }

  /** `k` whole pages fit in `a` years only if `k` is at most `a / width`. */
  lemma DivLowerBound(k: nat, a: int, width: nat)
    requires width > 0 && k * width <= a
    ensures k <= a / width
  {
    var q := a / width;
    assert a == q * width + a % width;
    if k > q {
      MulMono(q + 1, k, width);
    }
  }

  lemma MulMono(x: int, y: int, width: nat)
    requires x <= y
    ensures x * width <= y * width
  {
    assert y * width == x * width + (y - x) * width;
  }

  // ---------------------------------------------------------------------------------------
  // Choosing the month and the day
  // ---------------------------------------------------------------------------------------

  /** The month buttons' filter `{ hasText: inputMonth }`. */
  function MonthFilter(inputMonth: string): string -> bool {
    b => HasText(b, inputMonth)
  }

  /**
   * `page.locator('button').filter({ hasText: inputMonth }).click()` over the texts of the
   * buttons on the page: it finds nothing exactly when no button holds the name, and the
   * button it clicks holds it.
   */
  function SelectMonth(buttons: seq<string>, inputMonth: string): (r: ClickOutcome<nat>)
    ensures r.NoElement? <==> forall i | 0 <= i < |buttons| :: !HasText(buttons[i], inputMonth)
    ensures r.Clicked? ==> r.target < |buttons| && HasText(buttons[r.target], inputMonth)
  {
    ClickWhereOutcome(buttons, MonthFilter(inputMonth));
    assert forall i | 0 <= i < |buttons| :: MonthFilter(inputMonth)(buttons[i]) == HasText(buttons[i], inputMonth);
    Click(IndicesWhere(buttons, MonthFilter(inputMonth)))
  }

  /** Button `x` is the only button whose text holds the month name. */
  predicate OnlyMonthPasses(buttons: seq<string>, inputMonth: string, x: nat) {
    && x < |buttons| && HasText(buttons[x], inputMonth)
    && forall i | 0 <= i < |buttons| && i != x :: !HasText(buttons[i], inputMonth)
  }

  /** The month click reaches button `x` exactly when `x` is the only button whose text holds the name. */
  lemma SelectMonthIff(buttons: seq<string>, inputMonth: string, x: nat)
    requires x < |buttons|
    ensures SelectMonth(buttons, inputMonth) == Clicked(x) <==> OnlyMonthPasses(buttons, inputMonth, x)
  {
    var keep := MonthFilter(inputMonth);
    assert forall i | 0 <= i < |buttons| :: keep(buttons[i]) == HasText(buttons[i], inputMonth);
    ClickWhere(buttons, keep, x);
  }

  /** On the month view, the month click reaches button `x` when only that button holds the name. */
  lemma SelectOnlyMonth(controls: seq<string>, inputMonth: string, x: nat)
    requires OnlyMonthPasses(MonthView(controls), inputMonth, x)
    ensures SelectMonth(MonthView(controls), inputMonth).Clicked?
    ensures SelectMonth(MonthView(controls), inputMonth).target == x
  {
    SelectMonthIff(MonthView(controls), inputMonth, x);
  }

  /** The buttons of the month view: the other controls, then the twelve month buttons. */
  function MonthView(controls: seq<string>): (r: seq<string>)
    ensures |r| == |controls| + 12
  {
    controls + MonthNames
  }

  /**
   * On the month view, whose buttons are the other controls followed by the twelve month
   * buttons, a full month name selects its own month provided no other control's text holds it.
   */
  lemma MonthButtonSelected(controls: seq<string>, month: nat)
    requires month < 12
    requires forall k | 0 <= k < |controls| :: !HasText(controls[k], MonthNames[month])
    ensures SelectMonth(MonthView(controls), MonthNames[month]).Clicked?
    ensures SelectMonth(MonthView(controls), MonthNames[month]).target == |controls| + month
  {
    OnlyOwnMonth(controls, month);
    SelectOnlyMonth(controls, MonthNames[month], |controls| + month);
  }

  /** Of the month view's buttons, the month's own button and no other holds its name. */
  lemma OnlyOwnMonth(controls: seq<string>, month: nat)
    requires month < 12
    requires forall k | 0 <= k < |controls| :: !HasText(controls[k], MonthNames[month])
    ensures OnlyMonthPasses(MonthView(controls), MonthNames[month], |controls| + month)
  {
    var buttons := MonthView(controls);
    var name := MonthNames[month];
    var x := |controls| + month;
    assert buttons[x] == name;
    HasTextItself(name);
    forall i | 0 <= i < |buttons| && i != x
      ensures !HasText(buttons[i], name)
    {
      OtherButtonLacksMonth(controls, month, i);
    }
  }

  /** A control or another month's button does not hold the month's name. */
  lemma OtherButtonLacksMonth(controls: seq<string>, month: nat, i: nat)
    requires month < 12
    requires forall k | 0 <= k < |controls| :: !HasText(controls[k], MonthNames[month])
    requires i < |controls| + 12 && i != |controls| + month
    ensures !HasText(MonthView(controls)[i], MonthNames[month])
  {
    if i >= |controls| {
      var j: nat := i - |controls|;
      assert MonthView(controls)[i] == MonthNames[j];
      MonthNamesApart(month, j);
    } else {
      assert MonthView(controls)[i] == controls[i];
    }
  }

  /** No full month name is found, in any case, inside the name of another month. */
  lemma MonthNamesApart(i: nat, j: nat)
    requires i < 12 && j < 12 && i != j
    ensures !HasText(MonthNames[j], MonthNames[i])
  {
    if i < 6 {
      EarlyMonthApart(i, j);
    } else {
      LateMonthApart(i, j);
    }
  }

  lemma EarlyMonthApart(i: nat, j: nat)
    requires i < 6 && j < 12 && i != j
    ensures !HasText(MonthNames[j], MonthNames[i])
  {
    if i == 0 {
      JanuaryApart(j);
    } else if i == 1 {
      FebruaryApart(j);
    } else if i == 2 {
      MarchApart(j);
    } else if i == 3 {
      AprilApart(j);
    } else if i == 4 {
      MayApart(j);
    } else {
      JuneApart(j);
    }
  }

  lemma LateMonthApart(i: nat, j: nat)
    requires 6 <= i < 12 && j < 12 && i != j
    ensures !HasText(MonthNames[j], MonthNames[i])
  {
    if i == 6 {
      JulyApart(j);
    } else if i == 7 {
      AugustApart(j);
    } else if i == 8 {
      SeptemberApart(j);
    } else if i == 9 {
      OctoberApart(j);
    } else if i == 10 {
      NovemberApart(j);
    } else {
      DecemberApart(j);
    }
  }

  lemma JanuaryApart(j: nat)
    requires j < 12 && j != 0
    ensures !HasText(MonthNames[j], MonthNames[0])
  {
    if |MonthNames[j]| >= 7 {
      HasTextMissingChar(MonthNames[j], MonthNames[0], 0);
    }
  }

  lemma FebruaryApart(j: nat)
    requires j < 12 && j != 1
    ensures !HasText(MonthNames[j], MonthNames[1])
  {
    if |MonthNames[j]| >= 8 {
      HasTextMissingChar(MonthNames[j], MonthNames[1], 0);
    }
  }

  lemma MarchApart(j: nat)
    requires j < 12 && j != 2
    ensures !HasText(MonthNames[j], MonthNames[2])
  {
    if |MonthNames[j]| >= 5 {
      HasTextMissingChar(MonthNames[j], MonthNames[2], 4);
    }
  }

  lemma AprilApart(j: nat)
    requires j < 12 && j != 3
    ensures !HasText(MonthNames[j], MonthNames[3])
  {
    if |MonthNames[j]| >= 5 {
      HasTextMissingChar(MonthNames[j], MonthNames[3], 3);
    }
  }

  lemma MayApart(j: nat)
    requires j < 12 && j != 4
    ensures !HasText(MonthNames[j], MonthNames[4])
  {
    if |MonthNames[j]| >= 3 {
      if j == 0 || j == 1 || j == 6 {
        HasTextMissingChar(MonthNames[j], MonthNames[4], 0);
      } else {
        HasTextMissingChar(MonthNames[j], MonthNames[4], 2);
      }
    }
  }

  lemma JuneApart(j: nat)
    requires j < 12 && j != 5
    ensures !HasText(MonthNames[j], MonthNames[5])
  {
    if |MonthNames[j]| >= 4 {
      if j == 0 {
        HasTextMissingChar(MonthNames[j], MonthNames[5], 3);
      } else if j == 6 {
        HasTextMissingChar(MonthNames[j], MonthNames[5], 2);
      } else {
        HasTextMissingChar(MonthNames[j], MonthNames[5], 0);
      }
    }
  }

  lemma JulyApart(j: nat)
    requires j < 12 && j != 6
    ensures !HasText(MonthNames[j], MonthNames[6])
  {
    if |MonthNames[j]| >= 4 {
      if j == 3 {
        HasTextMissingChar(MonthNames[j], MonthNames[6], 0);
      } else {
        HasTextMissingChar(MonthNames[j], MonthNames[6], 2);
      }
    }
  }

  lemma AugustApart(j: nat)
    requires j < 12 && j != 7
    ensures !HasText(MonthNames[j], MonthNames[7])
  {
    if |MonthNames[j]| >= 6 {
      HasTextMissingChar(MonthNames[j], MonthNames[7], 2);
    }
  }

  lemma SeptemberApart(j: nat)
    requires j < 12 && j != 8
    ensures !HasText(MonthNames[j], MonthNames[8])
  {
    assert |MonthNames[j]| < |MonthNames[8]|;
  }

  lemma OctoberApart(j: nat)
    requires j < 12 && j != 9
    ensures !HasText(MonthNames[j], MonthNames[9])
  {
    if |MonthNames[j]| >= 7 {
      if j == 10 {
        HasTextMissingChar(MonthNames[j], MonthNames[9], 1);
      } else {
        HasTextMissingChar(MonthNames[j], MonthNames[9], 0);
      }
    }
  }

  lemma NovemberApart(j: nat)
    requires j < 12 && j != 10
    ensures !HasText(MonthNames[j], MonthNames[10])
  {
    if |MonthNames[j]| >= 8 {
      HasTextMissingChar(MonthNames[j], MonthNames[10], 2);
    }
  }

  lemma DecemberApart(j: nat)
    requires j < 12 && j != 11
    ensures !HasText(MonthNames[j], MonthNames[11])
  {
    if |MonthNames[j]| >= 8 {
      HasTextMissingChar(MonthNames[j], MonthNames[11], 0);
    }
  }

  /** A button of the month view's day grid: its `class` attribute and its text. */
  datatype DayButton = DayButton(classes: string, text: string)

  /** `:not([class*="neighboringMonth"])`: the day belongs to the month shown. */
  predicate ActiveDay(b: DayButton) {
    !Contains(b.classes, "neighboringMonth")
  }

  /** `getByText(inputDay, { exact: true })` on an active day: whole text, case-sensitive, trimmed. */
  function DayFilter(inputDay: string): DayButton -> bool {
    b => ActiveDay(b) && Trim(b.text) == Trim(inputDay)
  }

  /**
   * The day click over the buttons of the day grid: it finds nothing exactly when no active
   * day reads the input, and the button it clicks is an active day that does.
   */
  function SelectDay(days: seq<DayButton>, inputDay: string): (r: ClickOutcome<nat>)
    ensures r.NoElement? <==> forall i | 0 <= i < |days| :: !(ActiveDay(days[i]) && Trim(days[i].text) == Trim(inputDay))
    ensures r.Clicked? ==> r.target < |days| && ActiveDay(days[r.target]) && Trim(days[r.target].text) == Trim(inputDay)
  {
    ClickWhereOutcome(days, DayFilter(inputDay));
    assert forall i | 0 <= i < |days| :: DayFilter(inputDay)(days[i]) == (ActiveDay(days[i]) && Trim(days[i].text) == Trim(inputDay));
    Click(IndicesWhere(days, DayFilter(inputDay)))
  }

  /** Button `x` is active with the input day as its whole text, and no other active button has that text. */
  predicate OnlyDayPasses(days: seq<DayButton>, inputDay: string, x: nat) {
    && x < |days| && ActiveDay(days[x]) && Trim(days[x].text) == Trim(inputDay)
    && forall i | 0 <= i < |days| && i != x :: !(ActiveDay(days[i]) && Trim(days[i].text) == Trim(inputDay))
  }

  /**
   * The day click reaches button `x` exactly when `x` is active with the input day as its
   * whole text and no other active button has that text.
   */
  lemma SelectDayIff(days: seq<DayButton>, inputDay: string, x: nat)
    requires x < |days|
    ensures SelectDay(days, inputDay) == Clicked(x) <==> OnlyDayPasses(days, inputDay, x)
  {
    var keep := DayFilter(inputDay);
    assert forall i | 0 <= i < |days| :: keep(days[i]) == (ActiveDay(days[i]) && Trim(days[i].text) == Trim(inputDay));
    ClickWhere(days, keep, x);
  }

  lemma SelectOnlyDay(days: seq<DayButton>, inputDay: string, x: nat)
    requires OnlyDayPasses(days, inputDay, x)
    ensures SelectDay(days, inputDay).Clicked?
    ensures SelectDay(days, inputDay).target == x
  {
    SelectDayIff(days, inputDay, x);
  }

  /**
   * The days of a month of `|classes|` days, numbered from 1; day `k + 1` carries the class
   * list `classes[k]` (weekend days and today's tile carry extra classes).
   */
  function MonthDays(classes: seq<string>): (r: seq<DayButton>)
    ensures |r| == |classes|
    ensures forall k | 0 <= k < |classes| :: r[k] == DayButton(classes[k], NatToString(k + 1))
  {
    seq(|classes|, (k: int) requires 0 <= k < |classes| => DayButton(classes[k], NatToString(k + 1)))
  }

  /** The day grid of a month page: greyed-out days, the days of the month, greyed-out days. */
  function MonthPage(before: seq<DayButton>, classes: seq<string>, after: seq<DayButton>): (r: seq<DayButton>)
    ensures |r| == |before| + |classes| + |after|
  {
    before + MonthDays(classes) + after
  }

  /**
   * On a month page, with days of the neighbouring months before and after the days of the
   * month, none of which is marked as a neighbouring month's, the input day `d` picks the
   * button of day `d` and no other: "3" never picks "13", "23" or "31", nor a greyed-out "3"
   * of the next month.
   */
  lemma {:induction false} DaySelected(before: seq<DayButton>, classes: seq<string>, after: seq<DayButton>, d: nat)
    requires forall k | 0 <= k < |before| :: !ActiveDay(before[k])
    requires forall k | 0 <= k < |after| :: !ActiveDay(after[k])
    requires forall k | 0 <= k < |classes| :: !Contains(classes[k], "neighboringMonth")
    requires 1 <= d <= |classes|
    ensures SelectDay(MonthPage(before, classes, after), NatToString(d)).Clicked?
    ensures SelectDay(MonthPage(before, classes, after), NatToString(d)).target == |before| + d - 1
  {
    var month := MonthDays(classes);
    var days := before + month + after;
    var x: nat := |before| + d - 1;
    ConcatIndex(before, month, after, x);
    assert days[x] == DayButton(classes[d - 1], NatToString(d));
    forall i | 0 <= i < |days| && i != x
      ensures !(ActiveDay(days[i]) && Trim(days[i].text) == Trim(NatToString(d)))
    {
      OtherDayFails(before, month, after, classes, d, i);
    }
    assert OnlyDayPasses(days, NatToString(d), x);
    SelectOnlyDay(days, NatToString(d), x);
  }

  /** A button of such a page other than day `d`'s is either greyed out or shows another day. */
  lemma OtherDayFails(before: seq<DayButton>, month: seq<DayButton>, after: seq<DayButton>,
                      classes: seq<string>, d: nat, i: nat)
    requires forall k | 0 <= k < |before| :: !ActiveDay(before[k])
    requires forall k | 0 <= k < |after| :: !ActiveDay(after[k])
    requires month == MonthDays(classes)
    requires 1 <= d <= |classes| && i < |before| + |classes| + |after| && i != |before| + d - 1
    ensures !(ActiveDay((before + month + after)[i]) && Trim((before + month + after)[i].text) == Trim(NatToString(d)))
  {
    ConcatIndex(before, month, after, i);
    if |before| <= i < |before| + |classes| {
      var m: nat := i - |before| + 1;
      var t := (before + month + after)[i].text;
      assert t == NatToString(m);
      DayTextsApart(m, d);
      assert Trim(t) != Trim(NatToString(d));
    }
  }

  /** Where an element of three concatenated sequences comes from. */
  lemma ConcatIndex<T>(a: seq<T>, b: seq<T>, c: seq<T>, i: int)
    requires 0 <= i < |a| + |b| + |c|
    ensures i < |a| ==> (a + b + c)[i] == a[i]
    ensures |a| <= i < |a| + |b| ==> (a + b + c)[i] == b[i - |a|]
    ensures |a| + |b| <= i ==> (a + b + c)[i] == c[i - |a| - |b|]
  {
  }

  /** Different day numbers have different texts, white space trimmed or not. */
  lemma DayTextsApart(a: nat, b: nat)
    requires a != b
    ensures Trim(NatToString(a)) != Trim(NatToString(b))
  {
    IntToStringTrimmed(a);
    IntToStringTrimmed(b);
    IntToStringInjective(a, b);
    assert IntToString(a) == NatToString(a) && IntToString(b) == NatToString(b);
  }

  // ---------------------------------------------------------------------------------------
  // The substring year filter
  // ---------------------------------------------------------------------------------------

  /**
   * With the script's `hasText` filter, a year whose text is part of another year's text
   * stops the search early: looking for 992 from the page 1990 - 1999, the button "1992"
   * passes the filter, so no page is turned and the year clicked is not 992.
   */
  lemma HasTextFilterStopsEarly()
    ensures IsYearText("992")
    ensures 1992 in MatchingYears(1990, 10, "992", HasTextMatch)
    ensures 992 !in MatchingYears(1990, 10, "992", HasTextMatch)
    ensures Click(MatchingYears(1990, 10, "992", HasTextMatch)) != Clicked(992)
  {
    ThreeDigitYearText();
    YearTextInsideAnother();
  }

  lemma ThreeDigitYearText()
    ensures IsYearText("992")
  {
    assert NatToString(99) == "99";
    assert IntToString(992) == "992";
    ParseIntToString(992);
  }

  lemma YearTextInsideAnother()
    ensures YearFilter("992", HasTextMatch)(1992)
  {
    FourDigitYear(1992, "1992");
    LowerPointwise("1992");
    LowerPointwise("992");
    assert Lower("1992") == "1992";
    assert Lower("992") == "992";
    assert OccursAt("992", "1992", 1);
    ContainsIffOccurs("1992", "992");
  }
}
