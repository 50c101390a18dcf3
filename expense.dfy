/**
 * The expense record, one row of the `expenses` table, and its display form.
 */
module Expenses {
  import opened Wrappers
  import opened Text
  import opened Calendar

  /** Declared width of the `category` column (`String(50)`). */
  const CategoryWidth := 50
  /** Declared width of the `description` column (`String(255)`). */
  const DescriptionWidth := 255

  /**
   * One stored expense. `id`, `date`, `category` and `amount` are non-null
   * columns and so always present; only `description` is nullable. Amounts
   * are exact decimals.
   */
  datatype Expense = Expense(id: int, date: Date, category: string, amount: real, description: Option<string>)

  /** The validated fields of a record before the store assigns it an id. */
  datatype Draft = Draft(date: Date, category: string, amount: real, description: Option<string>)

  /** The row written for `draft` when the store gives it `id`. */
  function Stored(draft: Draft, id: int): (e: Expense)
    ensures e.id == id
    ensures Draft(e.date, e.category, e.amount, e.description) == draft
  {
    Expense(id, draft.date, draft.category, draft.amount, draft.description)
  }

  /**
   * What the add command guarantees of every draft it accepts: a valid date no
   * later than `today`, a positive amount, a stripped category of 1 to 50
   * characters, and a description that is absent or stripped and non-empty.
   */
  predicate WellFormedDraft(d: Draft, today: Date) {
    ValidDate(d.date) && DateLe(d.date, today)
    && d.amount > 0.0
    && 1 <= |d.category| <= CategoryWidth && Stripped(d.category)
    && (d.description.Some? ==> d.description.value != [] && Stripped(d.description.value))
  }

  /** The separator `__str__` puts before a description, exactly as the source file spells it. */
  const DescriptionSeparator: string := " " + ['\U{E2}', '\U{20AC}', '\U{A2}'] + " "

  /** `{date} | {category} | {amount}`, the part of `__str__` present for every record. */
  function Headline(e: Expense, amountText: string): string
  {
    FormatDate(e.date) + " | " + e.category + " | " + amountText
  }

  /**
   * `Expense.__str__`, with the two-decimal rendering of the amount given as
   * `amountText`. The description suffix appears exactly when the description
   * is present and non-empty (a truthy string).
   */
  function Describe(e: Expense, amountText: string): (s: string)
    ensures |s| >= |Headline(e, amountText)| && s[..|Headline(e, amountText)|] == Headline(e, amountText)
    ensures |s| == |Headline(e, amountText)| <==> (e.description.None? || e.description.value == [])
    ensures e.description.Some? && e.description.value != [] ==>
              s[|Headline(e, amountText)|..] == DescriptionSeparator + e.description.value
  {
    var suffix := if e.description.Some? && e.description.value != []
                  then DescriptionSeparator + e.description.value else "";
    Headline(e, amountText) + suffix
  }
}
