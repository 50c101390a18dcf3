/**
 * The `list` command: optional date bounds, an optional case-insensitive
 * category, all ANDed together, with the result ordered newest first
 * (date descending, then id descending).
 */
module ListCommand {
  import opened Wrappers
  import opened Text
  import opened Calendar
  import opened Expenses
  import opened Store
  import opened Sequences

  /** Which option a date came from: `--from-date` or `--to-date`. */
  datatype Bound = FromDate | ToDate

  /** The `click.BadParameter` messages of the command. */
  datatype ListError =
    | BadDate(flag: Bound)   // "{flag} must be in YYYY-MM-DD format."
    | FromAfterTo            // "--from-date cannot be after --to-date."

  /** `_parse_date_opt`: absent stays absent; a present text must be a strict `YYYY-MM-DD` date (no future check). */
  function ParseDateOpt(value: Option<string>, flag: Bound): (r: Result<Option<Date>, ListError>)
    ensures value.None? ==> r == Ok(None)
    ensures r.Ok? ==> (r.value.Some? <==> value.Some?)
    ensures r.Ok? && r.value.Some? ==> ValidDate(r.value.value) && value == Some(FormatDate(r.value.value))
    ensures r.Err? ==> r.error == BadDate(flag) && value.Some?
  {
    match value
    case None => Ok(None)
    case Some(text) =>
      match ParseDate(text)
      case None => Err(BadDate(flag))
      case Some(d) => ParseDateExact(text, d); Ok(Some(d))
  }

  /** A bound is accepted as `d` exactly when it is `d`'s `YYYY-MM-DD` text, whether or not `d` lies in the future. */
  lemma ParseDateOptExact(text: string, flag: Bound, d: Date)
    ensures ParseDateOpt(Some(text), flag) == Ok(Some(d)) <==> ValidDate(d) && text == FormatDate(d)
  {
    ParseDateExact(text, d);
  }

  /** A present bound that is the `YYYY-MM-DD` text of no valid date is rejected with the message naming its option. */
  lemma MalformedBoundRejected(text: string, flag: Bound)
    requires forall d :: ValidDate(d) ==> text != FormatDate(d)
    ensures ParseDateOpt(Some(text), flag) == Err(BadDate(flag))
  {
    if ParseDate(text).Some? {
      ParseDateExact(text, ParseDate(text).value);
    }
  }

  /** The filters of one listing; an absent field imposes no constraint. */
  datatype Filter = Filter(category: Option<string>, from: Option<Date>, to: Option<Date>)

  /** `if category: q.filter(Expense.category.ilike(category))`; an empty filter is falsy and imposes nothing. */
  predicate CategoryMatches(category: Option<string>, c: string)
    ensures category == Some(c) ==> CategoryMatches(category, c)
    ensures CategoryMatches(category, c) && category.Some? ==> category.value == [] || |c| == |category.value|
  {
    category.None? || category.value == [] || EqualsIgnoreCase(c, category.value)
  }

  /** Every predicate of the filter holds of `e`; the date bounds are inclusive. */
  predicate Matches(f: Filter, e: Expense)
    ensures f == Filter(None, None, None) ==> Matches(f, e)
    ensures Matches(f, e) && f.from.Some? && f.to.Some? ==> DateLe(f.from.value, f.to.value)
  {
    CategoryMatches(f.category, e.category)
    && (f.from.Some? ==> DateLe(f.from.value, e.date))
    && (f.to.Some? ==> DateLe(e.date, f.to.value))
  }

  /** The rows the filtered query reads, in storage order; each row is kept as often as it is stored if it matches. */
  function Select(records: seq<Expense>, f: Filter): (r: seq<Expense>)
    ensures |r| <= |records|
    ensures forall e :: multiset(r)[e] == if Matches(f, e) then multiset(records)[e] else 0
  {
    if records == [] then []
    else
      var rest := Select(records[1..], f);
      assert records == [records[0]] + records[1..];
      if Matches(f, records[0]) then [records[0]] + rest else rest
  }

  /** `order_by(Expense.date.desc(), Expense.id.desc())`: `a` may be listed before `b`. */
  predicate ListedBefore(a: Expense, b: Expense) {
    DateLt(b.date, a.date) || (a.date == b.date && a.id >= b.id)
  }

  predicate NewestFirst(s: seq<Expense>) {
    forall i :: 0 <= i < |s| - 1 ==> ListedBefore(s[i], s[i + 1])
  }

  function InsertNewestFirst(x: Expense, s: seq<Expense>): (r: seq<Expense>)
    requires NewestFirst(s)
    ensures NewestFirst(r)
    ensures multiset(r) == multiset(s) + multiset{x}
    ensures r[0] == x || (s != [] && r[0] == s[0])
  {
    if s == [] || ListedBefore(x, s[0]) then [x] + s
    else
      var rest := InsertNewestFirst(x, s[1..]);
      assert s == [s[0]] + s[1..];
      assert ListedBefore(s[0], rest[0]);
      [s[0]] + rest
  }

  function SortNewestFirst(s: seq<Expense>): (r: seq<Expense>)
    ensures NewestFirst(r)
    ensures multiset(r) == multiset(s)
  {
    if s == [] then []
    else
      assert s == [s[0]] + s[1..];
      InsertNewestFirst(s[0], SortNewestFirst(s[1..]))
  }

  /**
   * The query of `list_expenses_cmd`: the matching rows, newest first. Every
   * stored row that matches appears exactly as often as it is stored, and no
   * other row appears.
   */
  function Query(records: seq<Expense>, f: Filter): (rows: seq<Expense>)
    ensures NewestFirst(rows)
    ensures forall e :: multiset(rows)[e] == if Matches(f, e) then multiset(records)[e] else 0
  {
    SortNewestFirst(Select(records, f))
  }

  /** Every row the query returns satisfies every filter. */
  lemma QuerySound(records: seq<Expense>, f: Filter)
    ensures forall i :: 0 <= i < |Query(records, f)| ==> Matches(f, Query(records, f)[i])
  {
    var rows := Query(records, f);
    forall i | 0 <= i < |rows| ensures Matches(f, rows[i]) {
      assert rows[i] in multiset(rows);
    }
  }

  /** Every stored row that satisfies the filters is returned. */
  lemma QueryComplete(records: seq<Expense>, f: Filter, e: Expense)
    requires e in records && Matches(f, e)
    ensures e in Query(records, f)
  {
    assert e in multiset(records);
    assert e in multiset(Query(records, f));
  }

  /** What the command reports: a rejected option, "No matching expenses.", or the table rows. */
  datatype ListOutcome =
    | Rejected(error: ListError)
    | NoMatches
    | Rows(rows: seq<Expense>)

  /**
   * `list_expenses_cmd`: parse the bounds (from first), reject `from > to`
   * before querying, then query with the filters that were given.
   */
  function List(records: seq<Expense>, category: Option<string>, fromText: Option<string>,
                toText: Option<string>): (out: ListOutcome)
    ensures out.Rows? ==> out.rows != []
  {
    match ParseDateOpt(fromText, FromDate)
    case Err(e) => Rejected(e)
    case Ok(from) =>
      match ParseDateOpt(toText, ToDate)
      case Err(e) => Rejected(e)
      case Ok(to) =>
        if from.Some? && to.Some? && DateLt(to.value, from.value) then Rejected(FromAfterTo)
        else
          var rows := Query(records, Filter(category, from, to));
          if rows == [] then NoMatches else Rows(rows)
  }

  /** The filter the command builds once its options are accepted. */
  function FilterOf(category: Option<string>, fromText: Option<string>, toText: Option<string>): Filter
    requires ParseDateOpt(fromText, FromDate).Ok? && ParseDateOpt(toText, ToDate).Ok?
  {
    Filter(category, ParseDateOpt(fromText, FromDate).value, ParseDateOpt(toText, ToDate).value)
  }

  /** A rejection is decided from the options alone, before the store is read. */
  lemma RejectionIgnoresStore(records1: seq<Expense>, records2: seq<Expense>, category: Option<string>,
                              fromText: Option<string>, toText: Option<string>)
    requires List(records1, category, fromText, toText).Rejected?
    ensures List(records2, category, fromText, toText) == List(records1, category, fromText, toText)
  {
  }

  /** A range whose start lies after its end is rejected; equal bounds are allowed. */
  lemma ReversedRangeRejected(records: seq<Expense>, category: Option<string>, a: Date, b: Date)
    requires ValidDate(a) && ValidDate(b)
    ensures List(records, category, Some(FormatDate(a)), Some(FormatDate(b))) == Rejected(FromAfterTo)
            <==> DateLt(b, a)
  {
    FormatDateRoundTrip(a);
    FormatDateRoundTrip(b);
  }

  /**
   * Every listed row satisfies every given filter: its category equals a
   * non-empty category filter case-insensitively, and its date lies within the
   * inclusive bounds that were given, each bound on its own.
   */
  lemma ListedRowsMatch(records: seq<Expense>, category: Option<string>, fromText: Option<string>,
                        toText: Option<string>, i: int)
    requires List(records, category, fromText, toText).Rows?
    requires 0 <= i < |List(records, category, fromText, toText).rows|
    ensures var e := List(records, category, fromText, toText).rows[i];
            && (category.Some? && category.value != [] ==> EqualsIgnoreCase(e.category, category.value))
            && (fromText.Some? ==> DateLe(ParseDateOpt(fromText, FromDate).value.value, e.date))
            && (toText.Some? ==> DateLe(e.date, ParseDateOpt(toText, ToDate).value.value))
  {
    var f := FilterOf(category, fromText, toText);
    ListRows(records, category, fromText, toText);
    QuerySound(records, f);
    assert Matches(f, Query(records, f)[i]);
  }

  /** Completeness: a listing contains every stored row that satisfies the filters, as often as it is stored. */
  lemma ListedRowsComplete(records: seq<Expense>, category: Option<string>, fromText: Option<string>,
                           toText: Option<string>)
    requires List(records, category, fromText, toText).Rows?
    ensures var rows := List(records, category, fromText, toText).rows;
            forall e :: multiset(rows)[e]
                        == if Matches(FilterOf(category, fromText, toText), e) then multiset(records)[e] else 0
  {
  }

  /** "No matching expenses." is printed exactly when no stored row satisfies the accepted filters. */
  lemma NoMatchesIffNothingMatches(records: seq<Expense>, category: Option<string>, fromText: Option<string>,
                                   toText: Option<string>)
    requires !List(records, category, fromText, toText).Rejected?
    ensures List(records, category, fromText, toText) == NoMatches
            <==> forall i :: 0 <= i < |records| ==> !Matches(FilterOf(category, fromText, toText), records[i])
  {
    var f := FilterOf(category, fromText, toText);
    var rows := Query(records, f);
    if rows == [] {
      forall i | 0 <= i < |records| ensures !Matches(f, records[i]) {
        if Matches(f, records[i]) { QueryComplete(records, f, records[i]); }
      }
    } else {
      QuerySound(records, f);
      assert rows[0] in multiset(rows);
      assert rows[0] in multiset(records);
      var i :| 0 <= i < |records| && records[i] == rows[0];
    }
  }

  /** With no filters the listing is the whole store (as a multiset), or "No matching expenses." for an empty store. */
  lemma UnfilteredListsEverything(records: seq<Expense>)
    ensures records == [] ==> List(records, None, None, None) == NoMatches
    ensures records != [] ==> List(records, None, None, None).Rows?
                              && multiset(List(records, None, None, None).rows) == multiset(records)
  {
    var rows := Query(records, Filter(None, None, None));
    assert multiset(rows) == multiset(records);
    if records != [] {
      assert records[0] in multiset(records);
    }
  }

  /** With unique ids a row value is stored at most once. */
  lemma {:induction false} UniqueIdsStoredOnce(records: seq<Expense>, e: Expense)
    requires UniqueIds(records)
    ensures multiset(records)[e] <= 1
  {
    if records != [] {
      var tail := records[1..];
      assert records == [records[0]] + tail;
      assert UniqueIds(tail) by {
        forall i, j | 0 <= i < |tail| && 0 <= j < |tail| && i != j ensures tail[i].id != tail[j].id {
          assert tail[i] == records[i + 1] && tail[j] == records[j + 1];
        }
      }
      UniqueIdsStoredOnce(tail, e);
    }
  }

  /** The rows of a listing are those of the query with the accepted filters. */
  lemma ListRows(records: seq<Expense>, category: Option<string>, fromText: Option<string>,
                 toText: Option<string>)
    requires List(records, category, fromText, toText).Rows?
    ensures List(records, category, fromText, toText).rows == Query(records, FilterOf(category, fromText, toText))
  {
  }

  /** For a store whose ids are unique, the query's rows strictly decrease in (date, id). */
  lemma QueryStrictlyNewestFirst(records: seq<Expense>, f: Filter, i: int)
    requires UniqueIds(records)
    requires 0 <= i < |Query(records, f)| - 1
    ensures var rows := Query(records, f);
            && DateLe(rows[i + 1].date, rows[i].date)
            && (rows[i].date == rows[i + 1].date ==> rows[i].id > rows[i + 1].id)
  {
    var rows := Query(records, f);
    assert ListedBefore(rows[i], rows[i + 1]);
    if rows[i].id == rows[i + 1].id {
      assert rows[i] in multiset(rows) && rows[i + 1] in multiset(rows);
      assert rows[i] in multiset(records) && rows[i + 1] in multiset(records);
      var p :| 0 <= p < |records| && records[p] == rows[i];
      var q :| 0 <= q < |records| && records[q] == rows[i + 1];
      assert p == q;
      RepeatedTwice(rows, i, i + 1);
      UniqueIdsStoredOnce(records, rows[i]);
      assert false;
    }
  }

  /**
   * The listing is ordered newest first: dates never increase, and for a
   * store whose ids are unique, rows on the same date have strictly
   * decreasing ids.
   */
  lemma ListedNewestFirst(records: seq<Expense>, category: Option<string>, fromText: Option<string>,
                          toText: Option<string>, i: int)
    requires UniqueIds(records)
    requires List(records, category, fromText, toText).Rows?
    requires 0 <= i < |List(records, category, fromText, toText).rows| - 1
    ensures var rows := List(records, category, fromText, toText).rows;
            && DateLe(rows[i + 1].date, rows[i].date)
            && (rows[i].date == rows[i + 1].date ==> rows[i].id > rows[i + 1].id)
  {
    ListRows(records, category, fromText, toText);
    QueryStrictlyNewestFirst(records, FilterOf(category, fromText, toText), i);
  }

  /** The three rows seeded by the listing tests. */
  function SeededRecords(): seq<Expense> {
    [ Expense(1, Date(2025, 7, 10), "food", 5.0, None),
      Expense(2, Date(2025, 7, 12), "transport", 3.0, None),
      Expense(3, Date(2025, 8, 1), "food", 7.0, None) ]
  }

  /** Selecting from a row followed by more rows: the row is kept in front exactly when it matches. */
  lemma SelectCons(x: Expense, rest: seq<Expense>, f: Filter)
    ensures Select([x] + rest, f) == (if Matches(f, x) then [x] else []) + Select(rest, f)
  {
    assert ([x] + rest)[1..] == rest;
  }

  /** The seeded rows, taken apart row by row. */
  lemma SeededParts()
    ensures var r := SeededRecords();
            r == [r[0]] + r[1..] && r[1..] == [r[1]] + r[2..] && r[2..] == [r[2]] + [] && |r| == 3
  {
  }

  lemma FoodMatches()
    ensures var f := Filter(Some("food"), None, None);
            Matches(f, SeededRecords()[0]) && !Matches(f, SeededRecords()[1]) && Matches(f, SeededRecords()[2])
  {
    assert FoldCase("food") == "food";
    assert FoldCase("transport") == "transport";
  }

  /** `--category Food` matches a row stored as "FOOD"; "É" does not match "é". */
  lemma CategoryCaseExamples()
    ensures CategoryMatches(Some("Food"), "FOOD")
    ensures !CategoryMatches(Some("\U{E9}"), "\U{C9}")
  {
    EqualsIgnoreCaseExamples();
  }

  lemma FoodSelected()
    ensures Select(SeededRecords(), Filter(Some("food"), None, None))
            == [SeededRecords()[0], SeededRecords()[2]]
  {
    var records := SeededRecords();
    var f := Filter(Some("food"), None, None);
    SeededParts();
    FoodMatches();
    SelectCons(records[2], [], f);
    SelectCons(records[1], records[2..], f);
    SelectCons(records[0], records[1..], f);
  }

  lemma FoodSorted()
    ensures SortNewestFirst([SeededRecords()[0], SeededRecords()[2]])
            == [SeededRecords()[2], SeededRecords()[0]]
  {
    var s := [SeededRecords()[0], SeededRecords()[2]];
    assert s[1..] == [SeededRecords()[2]];
    assert SortNewestFirst(s[1..]) == s[1..];
  }

  /**
   * `list -c food` over the seeded rows lists the two food rows, the August
   * one first, and no transport row.
   */
  lemma FoodListingExample()
    ensures List(SeededRecords(), Some("food"), None, None)
            == Rows([SeededRecords()[2], SeededRecords()[0]])
  {
    FoodSelected();
    FoodSorted();
    FoodListing(SeededRecords(), [SeededRecords()[2], SeededRecords()[0]]);
  }

  /** Without date options the listing is the query on the category alone. */
  lemma FoodListing(records: seq<Expense>, rows: seq<Expense>)
    requires Query(records, Filter(Some("food"), None, None)) == rows && rows != []
    ensures List(records, Some("food"), None, None) == Rows(rows)
  {
  }

  lemma JulyDigits()
    ensures PadDigits(7, 2) == "07" && PadDigits(11, 2) == "11" && PadDigits(31, 2) == "31"
  {
    assert PadDigits(0, 1) == "0" && PadDigits(1, 1) == "1" && PadDigits(3, 1) == "3";
  }

  lemma FormatDateOf(d: Date, year: string, month: string, day: string)
    requires PadDigits(d.year, 4) == year && PadDigits(d.month, 2) == month && PadDigits(d.day, 2) == day
    ensures FormatDate(d) == year + "-" + month + "-" + day
  {
  }

  lemma JulyTexts()
    ensures "2025" + "-" + "07" + "-" + "11" == "2025-07-11"
    ensures "2025" + "-" + "07" + "-" + "31" == "2025-07-31"
  {
  }

  lemma JulyEleventh()
    ensures FormatDate(Date(2025, 7, 11)) == "2025-07-11"
  {
    YearDigits();
    JulyDigits();
    FormatDateOf(Date(2025, 7, 11), "2025", "07", "11");
    JulyTexts();
  }

  lemma JulyThirtyFirst()
    ensures FormatDate(Date(2025, 7, 31)) == "2025-07-31"
  {
    YearDigits();
    JulyDigits();
    FormatDateOf(Date(2025, 7, 31), "2025", "07", "31");
    JulyTexts();
  }

  /** The bounds `2025-07-11` and `2025-07-31` are read as those dates. */
  lemma JulyBoundsParsed()
    ensures ParseDateOpt(Some("2025-07-11"), FromDate) == Ok(Some(Date(2025, 7, 11)))
    ensures ParseDateOpt(Some("2025-07-31"), ToDate) == Ok(Some(Date(2025, 7, 31)))
  {
    JulyEleventh();
    JulyThirtyFirst();
    ParseDateOptExact("2025-07-11", FromDate, Date(2025, 7, 11));
    ParseDateOptExact("2025-07-31", ToDate, Date(2025, 7, 31));
  }

  lemma JulySelected()
    ensures Select(SeededRecords(), Filter(None, Some(Date(2025, 7, 11)), Some(Date(2025, 7, 31))))
            == [SeededRecords()[1]]
  {
    var records := SeededRecords();
    var f := Filter(None, Some(Date(2025, 7, 11)), Some(Date(2025, 7, 31)));
    SeededParts();
    assert !Matches(f, records[0]) && Matches(f, records[1]) && !Matches(f, records[2]);
    SelectCons(records[2], [], f);
    SelectCons(records[1], records[2..], f);
    SelectCons(records[0], records[1..], f);
  }

  lemma JulyQuery()
    ensures Query(SeededRecords(), Filter(None, Some(Date(2025, 7, 11)), Some(Date(2025, 7, 31))))
            == [SeededRecords()[1]]
  {
    JulySelected();
    assert SortNewestFirst([SeededRecords()[1]]) == [SeededRecords()[1]];
  }

  /** With both bounds accepted and in order, the listing is the query on those bounds. */
  lemma BoundedListing(records: seq<Expense>, fromText: string, toText: string, from: Date, to: Date,
                       rows: seq<Expense>)
    requires ParseDateOpt(Some(fromText), FromDate) == Ok(Some(from))
    requires ParseDateOpt(Some(toText), ToDate) == Ok(Some(to))
    requires DateLe(from, to)
    requires Query(records, Filter(None, Some(from), Some(to))) == rows && rows != []
    ensures List(records, None, Some(fromText), Some(toText)) == Rows(rows)
  {
  }

  /**
   * `list -f 2025-07-11 -t 2025-07-31` over the seeded rows lists the
   * transport row of 12 July alone; the 1 August row is left out.
   */
  lemma JulyListingExample()
    ensures List(SeededRecords(), None, Some("2025-07-11"), Some("2025-07-31"))
            == Rows([SeededRecords()[1]])
  {
    JulyBoundsParsed();
    JulyQuery();
    BoundedListing(SeededRecords(), "2025-07-11", "2025-07-31", Date(2025, 7, 11), Date(2025, 7, 31),
                   [SeededRecords()[1]]);
  }
}
