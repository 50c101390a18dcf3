/**
 * The `add` command: the three validators, description normalisation, the
 * order in which they run, and the persist step with commit or rollback.
 */
module AddCommand {
  import opened Wrappers
  import opened Text
  import opened Calendar
  import opened Expenses
  import opened Store

  /** The `click.BadParameter` messages the validators raise. */
  datatype AddError =
    | DateFormat         // "Date must be in YYYY-MM-DD format."
    | FutureDate         // "Date cannot be in the future."
    | AmountNotANumber   // "Amount must be a valid number."
    | AmountNotPositive  // "Amount must be greater than zero."
    | CategoryEmpty      // "Category cannot be empty."
    | CategoryTooLong    // "Category must be 50 characters or fewer."

  // ---------------------------------------------------------------------
  // _parse_date
  // ---------------------------------------------------------------------

  /** `_parse_date`: a strict `YYYY-MM-DD` calendar date that is not after `today` (`date.today()`). */
  function ParseExpenseDate(today: Date, value: string): (r: Result<Date, AddError>)
    ensures r.Ok? ==> ValidDate(r.value) && DateLe(r.value, today) && value == FormatDate(r.value)
    ensures r.Err? ==> r.error == DateFormat || r.error == FutureDate
  {
    match ParseDate(value)
    case None => Err(DateFormat)
    case Some(d) =>
      ParseDateExact(value, d);
      if DateLt(today, d) then Err(FutureDate) else Ok(d)
  }

  /** The accepted dates are exactly the valid ones up to and including `today`, written `YYYY-MM-DD`. */
  lemma ParseExpenseDateAccepts(today: Date, value: string, d: Date)
    ensures ParseExpenseDate(today, value) == Ok(d)
            <==> ValidDate(d) && DateLe(d, today) && value == FormatDate(d)
  {
    ParseDateExact(value, d);
  }

  /** The format error is raised exactly when `value` is not the `YYYY-MM-DD` text of any valid date. */
  lemma ParseExpenseDateFormatError(today: Date, value: string)
    ensures ParseExpenseDate(today, value) == Err(DateFormat)
            <==> forall d :: ValidDate(d) ==> value != FormatDate(d)
  {
    if ParseExpenseDate(today, value) == Err(DateFormat) {
      forall d | ValidDate(d) ensures value != FormatDate(d) {
        ParseDateExact(value, d);
      }
    } else {
      var d := ParseDate(value).value;
      ParseDateExact(value, d);
    }
  }

  /** A day past the end of the month is a format error, whatever `today` is: `2025-02-30` is refused. */
  lemma NonexistentDayRejected(today: Date)
    ensures ParseExpenseDate(today, "2025-02-30") == Err(DateFormat)
  {
    var s := "2025-02-30";
    assert s[5..7] == "02" && s[8..] == "30";
    assert NumberValue("02") == 2 by { assert "02"[..1] == "0"; }
    assert NumberValue("30") == 30 by { assert "30"[..1] == "3"; }
  }

  /** A valid date strictly after `today` is rejected as a future date. */
  lemma FutureDateRejected(today: Date, d: Date)
    requires ValidDate(d) && DateLt(today, d)
    ensures ParseExpenseDate(today, FormatDate(d)) == Err(FutureDate)
  {
    FormatDateRoundTrip(d);
  }

  /** The `--date` option: the given text, or `str(date.today())` when it is omitted. */
  function DateArgument(today: Date, dateText: Option<string>): (r: string)
    ensures dateText.Some? ==> r == dateText.value
    ensures dateText.None? && ValidDate(today) ==> ParseDate(r) == Some(today)
  {
    match dateText
    case Some(text) => text
    case None =>
      if ValidDate(today) then FormatDateRoundTrip(today); FormatDate(today)
      else FormatDate(today)
  }

  /** Omitting `--date` records the expense under `today`. */
  lemma DefaultDateAccepted(today: Date)
    requires ValidDate(today)
    ensures ParseExpenseDate(today, DateArgument(today, None)) == Ok(today)
  {
    FormatDateRoundTrip(today);
  }

  // ---------------------------------------------------------------------
  // _validate_amount
  // ---------------------------------------------------------------------

  /** `_validate_amount`: `Decimal(value)`, which must be a number and greater than zero. */
  function ValidateAmount(value: string): (r: Result<real, AddError>)
    ensures r.Ok? <==> ParseDecimal(value).Some? && ParseDecimal(value).value > 0.0
    ensures r.Ok? ==> r.value > 0.0 && ParseDecimal(value) == Some(r.value)
    ensures r == Err(AmountNotANumber) <==> ParseDecimal(value).None?
    ensures r == Err(AmountNotPositive) <==> ParseDecimal(value).Some? && ParseDecimal(value).value <= 0.0
  {
    match ParseDecimal(value)
    case None => Err(AmountNotANumber)
    case Some(amount) => if amount <= 0.0 then Err(AmountNotPositive) else Ok(amount)
  }

  /**
   * A positive literal `whole.fraction` is accepted with exactly the value it
   * denotes, with no binary rounding: with `CentsLiteralValue`, `12.50` is
   * 1250 hundredths.
   */
  lemma PointAmountAccepted(whole: string, fraction: string)
    requires AllDigits(whole) && AllDigits(fraction) && |whole| >= 1 && |fraction| >= 1
    requires LiteralValue(whole, fraction) > 0.0
    ensures ValidateAmount(whole + "." + fraction) == Ok(LiteralValue(whole, fraction))
  {
    ParsePointLiteral(whole + "." + fraction, whole, fraction, LiteralValue(whole, fraction));
  }

  /** A positive integer amount such as `5` or ` 5 ` is accepted as that integer. */
  lemma IntegerAmountAccepted(pre: string, digits: string, post: string)
    requires AllSpaces(pre) && AllSpaces(post) && AllDigits(digits) && NumberValue(digits) > 0
    ensures ValidateAmount(pre + digits + post) == Ok(NumberValue(digits) as real)
  {
    ParseUnsignedInteger(pre, digits, post);
  }

  lemma FiveAccepted()
    ensures ValidateAmount("5") == Ok(5.0)
  {
    assert NumberValue("5") == 5 by { assert "5"[..0] == []; }
    IntegerAmountAccepted([], "5", []);
    assert [] + "5" + [] == "5";
  }

  /** A number written with a leading minus sign is always refused as not greater than zero. */
  lemma NegativeAmountRejected(value: string)
    requires ParseDecimal(value).Some?
    requires |Strip(value)| > 0 && Strip(value)[0] == '-'
    ensures ValidateAmount(value) == Err(AmountNotPositive)
  {
    NegativeLiteral(value);
  }

  /** The amount of the add command's happy-path test: "10.5" is kept as exactly 10.5. */
  lemma DecimalAmountExample()
    ensures ValidateAmount("10.5") == Ok(10.5)
  {
    TenPointFive();
    ParsePointLiteral("10.5", "10", "5", 10.5);
  }

  lemma TenPointFive()
    ensures LiteralValue("10", "5") == 10.5
  {
    assert NumberValue("10") == 10 by { assert "10"[..1] == "1"; }
    assert FractionValue("5") == 0.5 by { assert "5"[1..] == []; }
  }

  /** The amount of the add command's rejection test: "-3" is refused as not greater than zero. */
  lemma NegativeAmountExample()
    ensures ValidateAmount("-3") == Err(AmountNotPositive)
  {
    assert "-3"[1..] == "3";
    ParseNegativeInteger("-3");
  }

  // ---------------------------------------------------------------------
  // _validate_category and the description
  // ---------------------------------------------------------------------

  /** `_validate_category`: the stripped input, which must be 1 to 50 characters long. */
  function ValidateCategory(value: string): (r: Result<string, AddError>)
    ensures r.Ok? ==> r.value == Strip(value) && 1 <= |r.value| <= CategoryWidth
    ensures r == Err(CategoryEmpty) <==> AllSpaces(value)
    ensures r == Err(CategoryTooLong) <==> |Strip(value)| > CategoryWidth
  {
    var v := Strip(value);
    StripEmptyIffAllSpaces(value);
    if v == [] then Err(CategoryEmpty)
    else if |v| > CategoryWidth then Err(CategoryTooLong)
    else Ok(v)
  }

  /** Validating an accepted category again returns it unchanged. */
  lemma ValidateCategoryIdempotent(value: string)
    requires ValidateCategory(value).Ok?
    ensures ValidateCategory(ValidateCategory(value).value) == ValidateCategory(value)
  {
    StripIdempotent(value);
  }

  /** Surrounding whitespace never matters: a padded category of 1 to 50 characters is accepted as its core. */
  lemma PaddedCategoryAccepted(pre: string, core: string, post: string)
    requires AllSpaces(pre) && AllSpaces(post)
    requires Stripped(core) && 1 <= |core| <= CategoryWidth
    ensures ValidateCategory(pre + core + post) == Ok(core)
  {
    StripOfPadded(pre, core, post);
  }

  /** `description.strip()` followed by `description or None`. */
  function NormalizeDescription(value: string): (r: Option<string>)
    ensures r.None? <==> AllSpaces(value)
    ensures r.Some? ==> r.value == Strip(value) && r.value != [] && Stripped(r.value)
  {
    var v := Strip(value);
    StripEmptyIffAllSpaces(value);
    if v == [] then None else Some(v)
  }

  /** Normalising an already normalised description changes nothing. */
  lemma NormalizeDescriptionIdempotent(value: string)
    requires NormalizeDescription(value).Some?
    ensures NormalizeDescription(NormalizeDescription(value).value) == NormalizeDescription(value)
  {
    StripIdempotent(value);
  }

  /**
   * The declared 255-character width of the description is not checked on
   * the way in: a 256-character description is kept whole.
   */
  lemma LongDescriptionKept()
    ensures var d := seq(DescriptionWidth + 1, i => 'x');
            NormalizeDescription(d) == Some(d) && |d| > DescriptionWidth
  {
    var d := seq(DescriptionWidth + 1, i => 'x');
    StripOfStripped(d);
  }

  // ---------------------------------------------------------------------
  // add_expense_cmd
  // ---------------------------------------------------------------------

  /**
   * The validation step of `add_expense_cmd`: date, then amount, then
   * category, so the first failing check decides the error; the description
   * is only normalised and never rejected.
   */
  function ValidateDraft(today: Date, dateText: string, categoryText: string, amountText: string,
                         descriptionText: string): (r: Result<Draft, AddError>)
    ensures r.Ok? ==> WellFormedDraft(r.value, today)
    ensures ParseExpenseDate(today, dateText).Err? ==> r == Err(ParseExpenseDate(today, dateText).error)
    ensures ParseExpenseDate(today, dateText).Ok? && ValidateAmount(amountText).Err?
            ==> r == Err(ValidateAmount(amountText).error)
    ensures ParseExpenseDate(today, dateText).Ok? && ValidateAmount(amountText).Ok?
            && ValidateCategory(categoryText).Err?
            ==> r == Err(ValidateCategory(categoryText).error)
    ensures ParseExpenseDate(today, dateText).Ok? && ValidateAmount(amountText).Ok?
            && ValidateCategory(categoryText).Ok?
            ==> r == Ok(Draft(ParseExpenseDate(today, dateText).value, ValidateCategory(categoryText).value,
                              ValidateAmount(amountText).value, NormalizeDescription(descriptionText)))
  {
    match ParseExpenseDate(today, dateText)
    case Err(e) => Err(e)
    case Ok(date) =>
      match ValidateAmount(amountText)
      case Err(e) => Err(e)
      case Ok(amount) =>
        match ValidateCategory(categoryText)
        case Err(e) => Err(e)
        case Ok(category) => Ok(Draft(date, category, amount, NormalizeDescription(descriptionText)))
  }

  /**
   * The command accepts its options with draft `d` exactly when each option is
   * accepted on its own with `d`'s value and the description normalises to
   * `d`'s description.
   */
  lemma ValidateDraftFields(today: Date, dateText: string, categoryText: string, amountText: string,
                            descriptionText: string, d: Draft)
    ensures ValidateDraft(today, dateText, categoryText, amountText, descriptionText) == Ok(d)
            <==> && ParseExpenseDate(today, dateText) == Ok(d.date)
                 && ValidateCategory(categoryText) == Ok(d.category)
                 && ValidateAmount(amountText) == Ok(d.amount)
                 && d.description == NormalizeDescription(descriptionText)
  {
  }

  /** The description never decides whether the command is rejected, nor with which error. */
  lemma DescriptionNeverRejects(today: Date, dateText: string, categoryText: string, amountText: string,
                                desc1: string, desc2: string)
    ensures ValidateDraft(today, dateText, categoryText, amountText, desc1).Err?
            == ValidateDraft(today, dateText, categoryText, amountText, desc2).Err?
    ensures ValidateDraft(today, dateText, categoryText, amountText, desc1).Err? ==>
              ValidateDraft(today, dateText, categoryText, amountText, desc1)
              == ValidateDraft(today, dateText, categoryText, amountText, desc2)
  {
  }

  /** What the command reports: a validation error, the saved row, or a failed save. */
  datatype AddOutcome =
    | Rejected(error: AddError)
    | Saved(expense: Expense)
    | SaveFailed

  /**
   * `add_expense_cmd`. A validation failure is raised before the store is
   * touched, so nothing is persisted. Otherwise the row is added and committed:
   * a successful commit leaves the old rows followed by exactly one new row
   * with the validated fields and a fresh id; a failed commit is rolled back
   * and the store is exactly as before.
   */
  method AddExpense(store: ExpenseStore, today: Date, dateText: Option<string>, categoryText: string,
                    amountText: string, descriptionText: string, commitSucceeds: bool)
    returns (outcome: AddOutcome)
    requires store.Valid() && ValidDate(today)
    modifies store
    ensures store.Valid()
    ensures match ValidateDraft(today, DateArgument(today, dateText), categoryText, amountText, descriptionText)
            case Err(e) =>
              outcome == Rejected(e)
              && store.records == old(store.records) && store.nextId == old(store.nextId)
            case Ok(draft) =>
              if commitSucceeds then
                outcome == Saved(Stored(draft, old(store.nextId)))
                && store.records == old(store.records) + [outcome.expense]
                && store.nextId == old(store.nextId) + 1
              else
                outcome == SaveFailed
                && store.records == old(store.records) && store.nextId == old(store.nextId)
    ensures outcome.Saved? ==> WellFormedDraft(Draft(outcome.expense.date, outcome.expense.category,
                                                     outcome.expense.amount, outcome.expense.description), today)
  {
    var validated := ValidateDraft(today, DateArgument(today, dateText), categoryText, amountText, descriptionText);
    match validated
    case Err(e) =>
      outcome := Rejected(e);
    case Ok(draft) =>
      var saved := store.Insert(draft, commitSucceeds);
      outcome := if saved.Some? then Saved(saved.value) else SaveFailed;
  }
}
