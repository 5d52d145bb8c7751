/**
 * The value-level part of a journal entry (app/models/journal_entry.rb):
 * the `transaction_type` enum, the integer core of `amount`, and the
 * per-entry validations that run before an entry is saved.
 */
module JournalEntries {
  import opened Wrappers

  /** A posted date, counted in days. */
  type Date = int

  /** The `transaction_type` enum: credit is stored as 1, debit as -1. */
  datatype TransactionType = Credit | Debit

  /** The integer the enum stores for a type; also the sign it gives an amount. */
  function Multiplier(t: TransactionType): int {
    match t
    case Credit => 1
    case Debit => -1
  }

  /** Reading the stored integer back; any other integer names no type. */
  function FromStored(v: int): Option<TransactionType> {
    if v == 1 then Some(Credit) else if v == -1 then Some(Debit) else None
  }

  /** The enum mapping is a bijection between the two types and {1, -1}. */
  lemma StoredRoundTrip(t: TransactionType, v: int)
    ensures FromStored(Multiplier(t)) == Some(t)
    ensures FromStored(v).Some? ==> Multiplier(FromStored(v).value) == v
    ensures FromStored(v).None? <==> v != 1 && v != -1
  {
  }

  /** The signed amount of an entry in minor units, with no exchange rate. */
  function SignedCents(amountInCents: int, t: TransactionType): (r: int)
    ensures amountInCents > 0 ==> (r > 0 <==> t == Credit) && (r < 0 <==> t == Debit)
    ensures r == amountInCents || r == -amountInCents
  {
    amountInCents * Multiplier(t)
  }

  /**
   * `amount` before the money conversion: cents times the type's sign times
   * the exchange rate, where an absent rate counts as 1.
   */
  function Amount(amountInCents: int, t: TransactionType, exchangeRate: Option<real>): (a: real)
    ensures exchangeRate.None? ==> a == SignedCents(amountInCents, t) as real
    ensures exchangeRate == Some(1.0) ==> a == SignedCents(amountInCents, t) as real
  {
    (amountInCents * Multiplier(t)) as real * exchangeRate.GetOr(1.0)
  }

  /** The errors the entry validations can add, each with its message below. */
  datatype EntryError =
    | PostedDateBlank        // validates :posted_date, presence: true
    | AmountNotANumber       // validates :amount_in_cents, numericality, on a nil amount
    | AmountNotPositive      // validates :amount_in_cents, numericality: { greater_than: 0 }
    | AfterNextEntry         // validate_posted_date, against next_entry
    | BeforePreviousEntry    // validate_posted_date, against previous_entry

  function Message(e: EntryError): string {
    match e
    case PostedDateBlank => "can't be blank"
    case AmountNotANumber => "is not a number"
    case AmountNotPositive => "must be greater than 0"
    case AfterNextEntry => "must be after proceding account entry"
    case BeforePreviousEntry => "must be before preceding account entry"
  }

  /** The two neighbour checks of `validate_posted_date`, for a present posted date. */
  function PostedDateErrors(posted: Date, next: Option<Date>, previous: Option<Date>): set<EntryError> {
    (if next.Some? && posted > next.value then {AfterNextEntry} else {}) +
    (if previous.Some? && posted < previous.value then {BeforePreviousEntry} else {})
  }

  /**
   * The outcome of validating an entry: the accumulated errors, or the
   * exception Ruby raises when `validate_posted_date` compares a blank
   * posted date with a neighbour's.
   */
  datatype Validation = Checked(errors: set<EntryError>) | Raised

  /**
   * The validations declared at app/models/journal_entry.rb:27-29, in that
   * order and without short-circuit: presence of the posted date,
   * numericality of the amount, then `validate_posted_date`'s checks against
   * the next and previous entries' dates.
   */
  function ValidateEntry(amountInCents: Option<int>, posted: Option<Date>,
                         next: Option<Date>, previous: Option<Date>): (r: Validation)
    ensures r.Raised? <==> posted.None? && (next.Some? || previous.Some?)
    ensures r.Checked? ==> (PostedDateBlank in r.errors <==> posted.None?)
    ensures r.Checked? ==> (AmountNotANumber in r.errors <==> amountInCents.None?)
    ensures r.Checked? ==> (AmountNotPositive in r.errors <==> amountInCents.Some? && amountInCents.value <= 0)
    ensures r.Checked? ==> (AfterNextEntry in r.errors <==> next.Some? && posted.value > next.value)
    ensures r.Checked? ==> (BeforePreviousEntry in r.errors <==> previous.Some? && posted.value < previous.value)
    ensures r == Checked({}) <==>
              && amountInCents.Some? && amountInCents.value > 0
              && posted.Some?
              && (next.None? || posted.value <= next.value)
              && (previous.None? || previous.value <= posted.value)
  {
    if posted.None? && (next.Some? || previous.Some?) then Raised
    else
      var presence := if posted.None? then {PostedDateBlank} else {};
      var numericality :=
        if amountInCents.None? then {AmountNotANumber}
        else if amountInCents.value <= 0 then {AmountNotPositive}
        else {};
      var neighbours := if posted.Some? then PostedDateErrors(posted.value, next, previous) else {};
      Checked(presence + numericality + neighbours)
  }
}
