/**
 * The `summary` command: an optional month filter, totals grouped by the
 * exact category text, ranked by total (largest first, no tie-break),
 * optionally cut to the top N rows, with the grand total of the rows shown
 * and the first row highlighted.
 */
module SummaryCommand {
  import opened Wrappers
  import opened Text
  import opened Calendar
  import opened Expenses
  import opened Sequences

  /** The `click.BadParameter` messages of the command. */
  datatype SummaryError =
    | BadMonth   // "--month must be in YYYY-MM format."
    | BadTop     // "--top must be a positive integer."

  // ---------------------------------------------------------------------
  // Options
  // ---------------------------------------------------------------------

  /** `_validate_month`: absent stays absent; a present month must parse as `%Y-%m` and is returned unchanged. */
  function ValidateMonth(month: Option<string>): (r: Result<Option<string>, SummaryError>)
    ensures r.Ok? ==> r.value == month
    ensures r.Err? ==> r.error == BadMonth && month.Some?
  {
    match month
    case None => Ok(None)
    case Some(text) => if ParseYearMonth(text).Some? then Ok(Some(text)) else Err(BadMonth)
  }

  /**
   * A present month is accepted exactly when it is the `YYYY-MM` text of a
   * year 1..9999 and a month 1..12, or the same text with a month below 10
   * written without its leading zero (`2025-7`).
   */
  lemma ValidateMonthExact(text: string)
    ensures ValidateMonth(Some(text)).Ok?
            <==> exists ym :: ValidYearMonth(ym)
                              && (text == FormatYearMonth(ym) || (ym.month <= 9 && text == FormatYearMonthUnpadded(ym)))
  {
    if ValidateMonth(Some(text)).Ok? {
      var ym := ParseYearMonth(text).value;
      ParseYearMonthExact(text, ym);
    } else {
      forall ym | ValidYearMonth(ym)
        ensures text != FormatYearMonth(ym) && (ym.month <= 9 ==> text != FormatYearMonthUnpadded(ym))
      {
        ParseYearMonthExact(text, ym);
      }
    }
  }

  /** `if top is not None and top <= 0`: a present limit must be positive. */
  function CheckTop(top: Option<int>): (r: Result<Option<int>, SummaryError>)
    ensures r.Ok? <==> top.None? || top.value > 0
    ensures r.Ok? ==> r.value == top
    ensures r.Err? ==> r.error == BadTop
  {
    if top.Some? && top.value <= 0 then Err(BadTop) else Ok(top)
  }

  // ---------------------------------------------------------------------
  // Month filter
  // ---------------------------------------------------------------------

  /** `strftime('%Y-%m', Expense.date) == month`, applied only when a month is given. */
  predicate InMonth(month: Option<string>, e: Expense)
    ensures month.None? ==> InMonth(month, e)
    ensures InMonth(month, e) && month.Some? ==> |month.value| == 7 && month.value[4] == '-'
  {
    month.None? || FormatYearMonth(MonthOf(e.date)) == month.value
  }

  /**
   * For an accepted month the text comparison is the same as comparing the
   * record's year and month, provided the month was written with two digits;
   * `strftime('%m')` always writes two, so a month written with one matches no record.
   */
  lemma InMonthExact(text: string, e: Expense)
    requires ValidateMonth(Some(text)).Ok? && ValidDate(e.date)
    ensures ParseYearMonth(text).Some?
    ensures InMonth(Some(text), e)
            <==> |text| == 7
                 && e.date.year == ParseYearMonth(text).value.year && e.date.month == ParseYearMonth(text).value.month
  {
    var ym := ParseYearMonth(text).value;
    ParseYearMonthExact(text, ym);
    if |text| == 7 {
      FormatYearMonthInjective(MonthOf(e.date), ym);
    }
  }

  /** The records the aggregate reads, in storage order. */
  function FilterMonth(records: seq<Expense>, month: Option<string>): (r: seq<Expense>)
    ensures forall e :: multiset(r)[e] == if InMonth(month, e) then multiset(records)[e] else 0
  {
    if records == [] then []
    else
      var rest := FilterMonth(records[1..], month);
      assert records == [records[0]] + records[1..];
      if InMonth(month, records[0]) then [records[0]] + rest else rest
  }

  // ---------------------------------------------------------------------
  // Reference sums
  // ---------------------------------------------------------------------

  /** The sum of the amounts of the records whose category is exactly `c`. */
  function SumFor(records: seq<Expense>, c: string): real {
    if records == [] then 0.0
    else
      var last := records[|records| - 1];
      SumFor(records[..|records| - 1], c) + (if last.category == c then last.amount else 0.0)
  }

  /** The sum of all amounts. */
  function AmountSum(records: seq<Expense>): real {
    if records == [] then 0.0
    else AmountSum(records[..|records| - 1]) + records[|records| - 1].amount
  }

  function CategoriesOf(records: seq<Expense>): set<string> {
    set e | e in records :: e.category
  }

  // ---------------------------------------------------------------------
  // GROUP BY category, SUM(amount)
  // ---------------------------------------------------------------------

  /** One result row: a category and its total. */
  datatype CategoryTotal = CategoryTotal(category: string, total: real)

  function Categories(rows: seq<CategoryTotal>): set<string> {
    set r | r in rows :: r.category
  }

  predicate DistinctCategories(rows: seq<CategoryTotal>) {
    forall i, j :: 0 <= i < j < |rows| ==> rows[i].category != rows[j].category
  }

  /** The total of the first row for `c`, or 0 when there is none. */
  function Lookup(rows: seq<CategoryTotal>, c: string): real {
    if rows == [] then 0.0
    else if rows[0].category == c then rows[0].total
    else Lookup(rows[1..], c)
  }

  /** The sum of the rows' totals: `sum(r.total for r in rows)`. */
  function GrandTotal(rows: seq<CategoryTotal>): real {
    if rows == [] then 0.0 else rows[0].total + GrandTotal(rows[1..])
  }

  lemma CategoriesCons(rows: seq<CategoryTotal>)
    requires rows != []
    ensures Categories(rows) == {rows[0].category} + Categories(rows[1..])
  {
    assert forall r :: r in rows <==> r == rows[0] || r in rows[1..];
  }

  /** With distinct categories the first row's category does not occur again. */
  lemma HeadCategoryFresh(rows: seq<CategoryTotal>)
    requires rows != [] && DistinctCategories(rows)
    ensures rows[0].category !in Categories(rows[1..])
  {
    forall x | x in rows[1..] ensures x.category != rows[0].category {
      var j :| 0 <= j < |rows[1..]| && rows[1..][j] == x;
      assert rows[j + 1] == x;
    }
  }

  /** Adds one record to the running groups: its amount joins the row of its category, or starts a new row. */
  function AddToGroups(rows: seq<CategoryTotal>, e: Expense): (r: seq<CategoryTotal>)
    ensures Categories(r) == Categories(rows) + {e.category}
  {
    if rows == [] then
      var r := [CategoryTotal(e.category, e.amount)];
      CategoriesCons(r);
      r
    else if rows[0].category == e.category then
      var r := [CategoryTotal(e.category, rows[0].total + e.amount)] + rows[1..];
      assert r[1..] == rows[1..];
      CategoriesCons(rows);
      CategoriesCons(r);
      r
    else
      var r := [rows[0]] + AddToGroups(rows[1..], e);
      assert r[1..] == AddToGroups(rows[1..], e);
      CategoriesCons(rows);
      CategoriesCons(r);
      r
  }

  /** Adding a record keeps one row per category. */
  lemma {:induction false} AddToGroupsDistinct(rows: seq<CategoryTotal>, e: Expense)
    requires DistinctCategories(rows)
    ensures DistinctCategories(AddToGroups(rows, e))
  {
    if rows != [] && rows[0].category != e.category {
      var rest := AddToGroups(rows[1..], e);
      AddToGroupsDistinct(rows[1..], e);
      HeadCategoryFresh(rows);
      DistinctCons(rows[0], rest);
    }
  }

  /** A row whose category is new can be put in front of distinct rows. */
  lemma DistinctCons(head: CategoryTotal, rows: seq<CategoryTotal>)
    requires DistinctCategories(rows) && head.category !in Categories(rows)
    ensures DistinctCategories([head] + rows)
  {
    var r := [head] + rows;
    forall i, j | 0 <= i < j < |r| ensures r[i].category != r[j].category {
      if i == 0 {
        assert r[j] in rows;
      } else {
        assert r[i] == rows[i - 1] && r[j] == rows[j - 1];
      }
    }
  }

  /** The record's amount is added to its own category's total and to no other. */
  lemma {:induction false} AddToGroupsLookup(rows: seq<CategoryTotal>, e: Expense, c: string)
    ensures Lookup(AddToGroups(rows, e), c) == Lookup(rows, c) + (if c == e.category then e.amount else 0.0)
  {
    if rows != [] && rows[0].category != e.category {
      AddToGroupsLookup(rows[1..], e, c);
      assert ([rows[0]] + AddToGroups(rows[1..], e))[1..] == AddToGroups(rows[1..], e);
    }
  }

  /** The record's amount is added to the sum of the totals. */
  lemma {:induction false} AddToGroupsTotal(rows: seq<CategoryTotal>, e: Expense)
    ensures GrandTotal(AddToGroups(rows, e)) == GrandTotal(rows) + e.amount
  {
    if rows != [] && rows[0].category != e.category {
      AddToGroupsTotal(rows[1..], e);
      assert ([rows[0]] + AddToGroups(rows[1..], e))[1..] == AddToGroups(rows[1..], e);
    }
  }

  /**
   * `GROUP BY category` with `SUM(amount)`: one row per distinct exact-case
   * category, rows in order of first appearance, and each row's total the sum
   * of the amounts of that category's records.
   */
  function Group(records: seq<Expense>): (rows: seq<CategoryTotal>)
    ensures DistinctCategories(rows)
    ensures Categories(rows) == CategoriesOf(records)
    ensures forall c :: Lookup(rows, c) == SumFor(records, c)
    ensures GrandTotal(rows) == AmountSum(records)
  {
    if records == [] then []
    else
      var init := records[..|records| - 1];
      var last := records[|records| - 1];
      assert records == init + [last];
      assert CategoriesOf(records) == CategoriesOf(init) + {last.category};
      var groups := Group(init);
      AddToGroupsDistinct(groups, last);
      AddToGroupsTotal(groups, last);
      assert forall c :: Lookup(AddToGroups(groups, last), c) == SumFor(records, c) by {
        forall c { AddToGroupsLookup(groups, last, c); }
      }
      AddToGroups(groups, last)
  }

  /** In rows with distinct categories each row's total is the one `Lookup` finds for its category. */
  lemma {:induction false} LookupDistinct(rows: seq<CategoryTotal>, i: int)
    requires DistinctCategories(rows) && 0 <= i < |rows|
    ensures Lookup(rows, rows[i].category) == rows[i].total
  {
    if i > 0 {
      LookupDistinct(rows[1..], i - 1);
    }
  }

  /** Rows with distinct categories: as many rows as categories. */
  lemma {:induction false} DistinctCount(rows: seq<CategoryTotal>)
    requires DistinctCategories(rows)
    ensures |Categories(rows)| == |rows|
  {
    if rows != [] {
      CategoriesCons(rows);
      DistinctCount(rows[1..]);
      HeadCategoryFresh(rows);
    }
  }

  // ---------------------------------------------------------------------
  // ORDER BY SUM(amount) DESC, LIMIT top
  // ---------------------------------------------------------------------

  predicate ByTotalDescending(rows: seq<CategoryTotal>) {
    forall i :: 0 <= i < |rows| - 1 ==> rows[i].total >= rows[i + 1].total
  }

  function InsertByTotal(x: CategoryTotal, s: seq<CategoryTotal>): (r: seq<CategoryTotal>)
    requires ByTotalDescending(s)
    ensures ByTotalDescending(r)
    ensures multiset(r) == multiset(s) + multiset{x}
    ensures r[0] == x || (s != [] && r[0] == s[0])
  {
    if s == [] || x.total >= s[0].total then [x] + s
    else
      var rest := InsertByTotal(x, s[1..]);
      assert s == [s[0]] + s[1..];
      assert s[0].total >= rest[0].total;
      [s[0]] + rest
  }

  /** The inserted row's total joins the sum. */
  lemma {:induction false} InsertGrandTotal(x: CategoryTotal, s: seq<CategoryTotal>)
    requires ByTotalDescending(s)
    ensures GrandTotal(InsertByTotal(x, s)) == x.total + GrandTotal(s)
  {
    if s != [] && x.total < s[0].total {
      InsertGrandTotal(x, s[1..]);
    }
  }

  /**
   * `ORDER BY SUM(amount) DESC`. The source gives no tie-break, so the order
   * among equal totals is the backend's; this ranking keeps ties in group
   * order, and nothing proved below depends on that choice.
   */
  function Rank(rows: seq<CategoryTotal>): (r: seq<CategoryTotal>)
    ensures ByTotalDescending(r)
    ensures multiset(r) == multiset(rows)
    ensures GrandTotal(r) == GrandTotal(rows)
  {
    if rows == [] then []
    else
      assert rows == [rows[0]] + rows[1..];
      InsertGrandTotal(rows[0], Rank(rows[1..]));
      InsertByTotal(rows[0], Rank(rows[1..]))
  }

  /** Adjacent order gives order between any two positions. */
  lemma {:induction false} ByTotalDescendingPairwise(rows: seq<CategoryTotal>, i: int, j: int)
    requires ByTotalDescending(rows) && 0 <= i <= j < |rows|
    ensures rows[i].total >= rows[j].total
    decreases j - i
  {
    if i < j {
      ByTotalDescendingPairwise(rows, i + 1, j);
    }
  }

  /** `LIMIT top` when a (validated, positive) limit is given. */
  function Limit(rows: seq<CategoryTotal>, top: Option<int>): (r: seq<CategoryTotal>)
    requires top.None? || top.value > 0
    ensures top.None? ==> r == rows
    ensures top.Some? ==> |r| == (if top.value < |rows| then top.value else |rows|)
    ensures r == rows[..|r|]
  {
    if top.Some? && top.value < |rows| then rows[..top.value] else rows
  }

  lemma {:induction false} GrandTotalSplit(rows: seq<CategoryTotal>, k: int)
    requires 0 <= k <= |rows|
    ensures GrandTotal(rows) == GrandTotal(rows[..k]) + GrandTotal(rows[k..])
  {
    if k > 0 {
      assert rows[..k][1..] == rows[1..][..k - 1];
      assert rows[k..] == rows[1..][k - 1..];
      GrandTotalSplit(rows[1..], k - 1);
    }
  }

  // ---------------------------------------------------------------------
  // summary_cmd
  // ---------------------------------------------------------------------

  /** What the command reports: a rejected option, "No matching expenses.", or the ranked rows, grand total and highest row. */
  datatype SummaryOutcome =
    | Rejected(error: SummaryError)
    | NoMatches
    | Report(rows: seq<CategoryTotal>, grandTotal: real, highest: CategoryTotal)

  /** The complete ranking of the month's categories, before any limit. */
  function Ranking(records: seq<Expense>, month: Option<string>): (r: seq<CategoryTotal>)
    ensures ByTotalDescending(r) && DistinctCategories(r)
    ensures Categories(r) == CategoriesOf(FilterMonth(records, month))
    ensures GrandTotal(r) == AmountSum(FilterMonth(records, month))
  {
    RankSameCategories(Group(FilterMonth(records, month)));
    RankKeepsDistinct(Group(FilterMonth(records, month)));
    Rank(Group(FilterMonth(records, month)))
  }

  /**
   * `summary_cmd`: validate the month, then the limit, then group, rank and
   * limit; the grand total is taken over the rows returned.
   */
  function Summary(records: seq<Expense>, month: Option<string>, top: Option<int>): (out: SummaryOutcome)
    ensures out.Report? ==> out.rows != [] && out.highest == out.rows[0]
  {
    match ValidateMonth(month)
    case Err(e) => Rejected(e)
    case Ok(m) =>
      match CheckTop(top)
      case Err(e) => Rejected(e)
      case Ok(n) =>
        var rows := Limit(Ranking(records, m), n);
        if rows == [] then NoMatches else Report(rows, GrandTotal(rows), rows[0])
  }

  /** The rows of a report are a prefix of the ranking. */
  lemma ReportIsPrefix(records: seq<Expense>, month: Option<string>, top: Option<int>)
    requires Summary(records, month, top).Report?
    ensures var rows := Summary(records, month, top).rows;
            var ranking := Ranking(records, month);
            && |rows| == (if top.Some? && top.value < |ranking| then top.value else |ranking|)
            && rows == ranking[..|rows|]
  {
  }

  /** A bad month is reported first, then a non-positive limit, whatever the store holds. */
  lemma RejectionOrder(records: seq<Expense>, month: Option<string>, top: Option<int>)
    ensures Summary(records, month, top) == Rejected(BadMonth) <==> ValidateMonth(month).Err?
    ensures Summary(records, month, top) == Rejected(BadTop)
            <==> ValidateMonth(month).Ok? && top.Some? && top.value <= 0
  {
  }

  /**
   * Without a limit there is one row per distinct category among the month's
   * records, each with the sum of that category's amounts in the month, ranked
   * by total.
   */
  lemma ReportTotals(records: seq<Expense>, month: Option<string>)
    requires Summary(records, month, None).Report?
    ensures var rows := Summary(records, month, None).rows;
            var inMonth := FilterMonth(records, month);
            && DistinctCategories(rows)
            && Categories(rows) == CategoriesOf(inMonth)
            && |rows| == |CategoriesOf(inMonth)|
            && (forall i :: 0 <= i < |rows| ==> rows[i].total == SumFor(inMonth, rows[i].category))
            && ByTotalDescending(rows)
  {
    var inMonth := FilterMonth(records, month);
    var groups := Group(inMonth);
    RankSameCategories(groups);
    RankKeepsDistinct(groups);
    DistinctCount(Rank(groups));
    forall i | 0 <= i < |Rank(groups)|
      ensures Rank(groups)[i].total == SumFor(inMonth, Rank(groups)[i].category)
    {
      RankTotal(groups, i);
    }
  }

  /** Ranking only reorders the rows, so it keeps the set of categories. */
  lemma RankSameCategories(groups: seq<CategoryTotal>)
    ensures Categories(Rank(groups)) == Categories(groups)
  {
    var rows := Rank(groups);
    forall r ensures r in rows <==> r in groups {
      assert r in rows <==> r in multiset(rows);
      assert r in groups <==> r in multiset(groups);
    }
  }

  /** Each ranked row carries the total its category had among the grouped rows. */
  lemma RankTotal(groups: seq<CategoryTotal>, i: int)
    requires DistinctCategories(groups) && 0 <= i < |Rank(groups)|
    ensures Rank(groups)[i].total == Lookup(groups, Rank(groups)[i].category)
  {
    var rows := Rank(groups);
    assert rows[i] in multiset(groups);
    var j :| 0 <= j < |groups| && groups[j] == rows[i];
    LookupDistinct(groups, j);
  }

  /** Ranking only reorders rows, so distinct categories stay distinct. */
  lemma RankKeepsDistinct(groups: seq<CategoryTotal>)
    requires DistinctCategories(groups)
    ensures DistinctCategories(Rank(groups))
  {
    var rows := Rank(groups);
    forall i, j | 0 <= i < j < |rows| ensures rows[i].category != rows[j].category {
      if rows[i].category == rows[j].category {
        assert rows[i] in multiset(groups) && rows[j] in multiset(groups);
        var p :| 0 <= p < |groups| && groups[p] == rows[i];
        var q :| 0 <= q < |groups| && groups[q] == rows[j];
        if p == q {
          RepeatedTwice(rows, i, j);
          DistinctOnce(groups, rows[i]);
        }
        assert false;
      }
    }
  }

  lemma {:induction false} DistinctOnce(rows: seq<CategoryTotal>, x: CategoryTotal)
    requires DistinctCategories(rows)
    ensures multiset(rows)[x] <= 1
  {
    if rows != [] {
      var tail := rows[1..];
      assert rows == [rows[0]] + tail;
      DistinctOnce(tail, x);
    }
  }

  /** A limit keeps the largest totals: no omitted category has a larger total than a shown one. */
  lemma LimitKeepsLargest(records: seq<Expense>, month: Option<string>, top: Option<int>, i: int, j: int)
    requires Summary(records, month, top).Report?
    requires 0 <= i < |Summary(records, month, top).rows| <= j < |Ranking(records, month)|
    ensures Ranking(records, month)[j].total <= Summary(records, month, top).rows[i].total
  {
    var ranking := Ranking(records, month);
    ReportIsPrefix(records, month, top);
    ByTotalDescendingPairwise(ranking, i, j);
  }

  /** The highlighted row has the largest total of the whole month, shown or not. */
  lemma HighestIsLargest(records: seq<Expense>, month: Option<string>, top: Option<int>, j: int)
    requires Summary(records, month, top).Report?
    requires 0 <= j < |Ranking(records, month)|
    ensures Ranking(records, month)[j].total <= Summary(records, month, top).highest.total
  {
    var ranking := Ranking(records, month);
    ReportIsPrefix(records, month, top);
    ByTotalDescendingPairwise(ranking, 0, j);
  }

  /**
   * The grand total is the sum of the rows shown. Together with the totals
   * of the categories a limit leaves out it makes up the sum of all of the
   * month's amounts; without a limit it is that sum.
   */
  lemma GrandTotalOfShownRows(records: seq<Expense>, month: Option<string>, top: Option<int>)
    requires Summary(records, month, top).Report?
    ensures var out := Summary(records, month, top);
            var ranking := Ranking(records, month);
            && out.grandTotal == GrandTotal(out.rows)
            && out.grandTotal + GrandTotal(ranking[|out.rows|..]) == AmountSum(FilterMonth(records, month))
            && (top.None? ==> out.grandTotal == AmountSum(FilterMonth(records, month)))
  {
    var out := Summary(records, month, top);
    var ranking := Ranking(records, month);
    ReportIsPrefix(records, month, top);
    assert out.grandTotal == GrandTotal(out.rows);
    assert GrandTotal(ranking) == AmountSum(FilterMonth(records, month));
    GrandTotalSplit(ranking, |out.rows|);
    assert ranking[|ranking|..] == [];
  }

  /** No record is read for the aggregate exactly when none falls in the month. */
  lemma {:induction false} FilterMonthEmpty(records: seq<Expense>, month: Option<string>)
    ensures FilterMonth(records, month) == []
            <==> forall i :: 0 <= i < |records| ==> !InMonth(month, records[i])
  {
    if records != [] {
      FilterMonthEmpty(records[1..], month);
      if !InMonth(month, records[0]) {
        forall i | 0 <= i < |records| && i > 0 ensures records[i] == records[1..][i - 1] { }
      }
    }
  }

  /** The ranking is empty exactly when no record was grouped. */
  lemma RankingEmpty(inMonth: seq<Expense>)
    ensures Rank(Group(inMonth)) == [] <==> inMonth == []
  {
    var groups := Group(inMonth);
    assert |Rank(groups)| == |multiset(Rank(groups))| == |multiset(groups)| == |groups|;
    if inMonth != [] {
      assert inMonth[0].category in CategoriesOf(inMonth);
    }
  }

  /** "No matching expenses." is printed exactly when no record falls in the month. */
  lemma NoMatchesIffMonthEmpty(records: seq<Expense>, month: Option<string>, top: Option<int>)
    requires ValidateMonth(month).Ok? && CheckTop(top).Ok?
    ensures Summary(records, month, top) == NoMatches
            <==> forall i :: 0 <= i < |records| ==> !InMonth(month, records[i])
  {
    FilterMonthEmpty(records, month);
    RankingEmpty(FilterMonth(records, month));
  }

  /** A month accepted without its leading zero selects nothing: the command prints "No matching expenses.". */
  lemma UnpaddedMonthMatchesNothing(records: seq<Expense>, text: string, top: Option<int>)
    requires ValidateMonth(Some(text)).Ok? && CheckTop(top).Ok? && |text| == 6
    ensures Summary(records, Some(text), top) == NoMatches
  {
    NoMatchesIffMonthEmpty(records, Some(text), top);
  }

  /** `--month 2025-7` passes validation and reports no matches, even over July 2025 rows. */
  lemma UnpaddedMonthExample()
    ensures ValidateMonth(Some("2025-7")).Ok?
    ensures Summary(SeededRecords(), Some("2025-7"), None) == NoMatches
  {
    var ym := YearMonth(2025, 7);
    ParseYearMonthExact(FormatYearMonthUnpadded(ym), ym);
    UnpaddedText();
    UnpaddedMonthMatchesNothing(SeededRecords(), "2025-7", None);
  }

  lemma UnpaddedText()
    ensures FormatYearMonthUnpadded(YearMonth(2025, 7)) == "2025-7"
  {
    YearDigits();
    assert [DigitChar(7)] == "7";
    assert "2025" + "-" + "7" == "2025-7";
  }

  /** The three rows seeded by the summary test. */
  function SeededRecords(): seq<Expense> {
    [ Expense(1, Date(2025, 7, 15), "food", 10.0, None),
      Expense(2, Date(2025, 7, 16), "food", 5.0, None),
      Expense(3, Date(2025, 7, 17), "transport", 20.0, None) ]
  }

  /** Grouping the seeded rows gives food 15 then transport 20. */
  lemma SeededGroups()
    ensures Group(SeededRecords()) == [CategoryTotal("food", 15.0), CategoryTotal("transport", 20.0)]
  {
    var records := SeededRecords();
    var r1 := records[..1];
    var r2 := records[..2];
    assert r1[..0] == [];
    assert r2[..1] == r1;
    assert records[..2] == r2;
    var g1 := AddToGroups([], records[0]);
    assert g1 == [CategoryTotal("food", 10.0)];
    assert Group(r1) == g1;
    var g2 := AddToGroups(g1, records[1]);
    assert g2 == [CategoryTotal("food", 15.0)];
    assert Group(r2) == g2;
    var g3 := AddToGroups(g2, records[2]);
    assert AddToGroups(g2[1..], records[2]) == [CategoryTotal("transport", 20.0)];
    assert g3 == [CategoryTotal("food", 15.0), CategoryTotal("transport", 20.0)];
  }

  lemma SeededFilter()
    ensures FilterMonth(SeededRecords(), None) == SeededRecords()
  {
    var records := SeededRecords();
    assert records[1..][1..] == records[2..];
    assert records[2..][1..] == [];
  }

  lemma RankTwoExample()
    ensures Rank([CategoryTotal("food", 15.0), CategoryTotal("transport", 20.0)])
            == [CategoryTotal("transport", 20.0), CategoryTotal("food", 15.0)]
  {
    var groups := [CategoryTotal("food", 15.0), CategoryTotal("transport", 20.0)];
    assert Rank(groups[1..]) == [CategoryTotal("transport", 20.0)];
  }

  /** Ranking the seeded rows puts transport (20) before food (15). */
  lemma SeededRanking()
    ensures Ranking(SeededRecords(), None) == [CategoryTotal("transport", 20.0), CategoryTotal("food", 15.0)]
  {
    SeededFilter();
    SeededGroups();
    RankTwoExample();
  }

  /** `--top 1` over a ranking led by transport (20) shows that row alone. */
  lemma TopOneOfRanking(records: seq<Expense>)
    requires Ranking(records, None) == [CategoryTotal("transport", 20.0), CategoryTotal("food", 15.0)]
    ensures Summary(records, None, Some(1))
            == Report([CategoryTotal("transport", 20.0)], 20.0, CategoryTotal("transport", 20.0))
  {
    var t := CategoryTotal("transport", 20.0);
    assert Ranking(records, None)[..1] == [t];
  }

  /**
   * With `--top 1` over the seeded rows only transport is shown: its 20 is
   * the grand total and the highest category, and food does not appear.
   */
  lemma TopOneExample()
    ensures Summary(SeededRecords(), None, Some(1))
            == Report([CategoryTotal("transport", 20.0)], 20.0, CategoryTotal("transport", 20.0))
  {
    SeededRanking();
    TopOneOfRanking(SeededRecords());
  }
}
