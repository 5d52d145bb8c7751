# Budgeteer ledger core, in Dafny

Budgeteer is a double-entry ledger. A transaction (`Transackshun`) owns
journal entries. Each entry is one side of the transaction and belongs to one
account. An entry carries:

- a `transaction_type` (credit stored as 1, debit as -1);
- a positive `amount_in_cents`;
- a `posted_date`;
- an `order` number that separates entries posted on the same day;
- a `next_entry` link.

Within one account, the entries form a singly linked chain sorted by posted
date. `previous_entry` is the inverse of `next_entry`. The model covers:

- **Creating an entry** (`before_create`):
  - `assign_associated_entries` finds the successor (the first entry dated
    later) and the predecessor (the successor's `previous_entry`, or else the
    last entry dated on or before the new one), and splices the entry between
    them;
  - a preset `next_entry` skips that lookup;
  - `assign_order_number` then numbers the entry from its predecessor and
    walks `next_entry` to the tail, renumbering each entry from the one before.
- **Destroying an entry** (`before_destroy`): `unassign_associated_entries`
  points the predecessor's `next_entry` past the removed entry.
- **Validating an entry**: presence of the posted date, a positive amount, and
  `validate_posted_date`'s date checks against both neighbours.
- **Validating a transaction** (`validate_entry_integrity`): the signed
  amounts must sum to zero, and no account may appear twice. Each failure adds
  its own error.
- **Destroying a transaction**: the cascading destroy of the entries it owns.

Files:

- `wrappers.dfy`: `Option`.
- `entry.dfy` (module `JournalEntries`): the enum, the integer core of
  `amount`, and the entry validations, all as functions.
- `chain.dfy` (module `EntryChain`), in two parts:
  - Specification functions and lemmas over a chain read as a sequence of
    `(posted_date, order)` stamps, and over a map of rows read along their
    links.
  - The `AccountChain` class. It holds one account's rows in a map from
    entry id to `Row(postedDate, order, nextEntry)`, and its methods update
    that map in place:
    - `Insert` and `InsertBefore` model creating an entry;
    - `AssignOrderNumber` is the cascade, as a loop;
    - `Remove` models destroying an entry.
  - The invariant `Valid()` requires three things:
    - the links form one chain over exactly the stored rows;
    - the chain is sorted by date;
    - orders increase within a day.
- `transaction.dfy` (module `Transactions`): `validate_entry_integrity` as a
  function from the entries (account, type, cents) to a set of errors.
- `ledger.dfy` (module `Ledger`): destroying a transaction, as a loop of
  `Remove` calls over the affected accounts' chains.

Where the specification and the code disagree, the model follows the code:

- **Cascade.** The specification stops renumbering at the first entry on a
  different day. The code (app/models/journal_entry.rb:71) always recurses to
  the tail. `EntryChain.AccountChain.AssignOrderNumber` walks to the tail.
  `EntryChain.CascadeBumpsSameDayOnly` shows that on a densely numbered chain
  the two give the same orders.
- **Order numbers.** The specification allows any non-negative `order`. The
  code assigns 1 or the predecessor's order plus one, so orders start at 1.

In one place the model follows the specification instead:

- **The neighbour lookups.** The specification finds the successor and the
  predecessor along the chain; with no successor, the predecessor is the
  chain's tail. The code queries `where(...).first` and `.last` under
  `default_scope { order(order: :asc) }`, which orders by the `order` column
  alone (app/models/journal_entry.rb:10, 89, 92). The class's lookups
  (`AccountChain.FirstEntryAfter`, `LastEntryAtOrBefore`, `Neighbours`) scan
  the chain, as the specification says. The code's behaviour is modelled by
  `EntryChain.OrderColumnLast` and `EntryChain.OrderColumnFirst`, and
  exhibited by the counterexample lemmas under "## Findings".

The unique index on (account, posted_date, order) is declared unique by the
migration (db/migrate/20240111024211_create_journal_entries.rb:19), while
db/schema.rb:40 declares the same index without `unique: true`. The model
proves the uniqueness the migration asks for.

## Model

| member | source | states |
|---|---|---|
| JournalEntries.StoredRoundTrip | app/models/journal_entry.rb:22-25 | The enum maps credit to 1 and debit to -1. Reading a stored value back gives the same type. Any integer other than 1 and -1 names no type. |
| JournalEntries.SignedCents | app/models/journal_entry.rb:36-39 | The signed amount is the cents or their negation. For positive cents, it is positive exactly for a credit and negative exactly for a debit. |
| JournalEntries.Amount | app/models/journal_entry.rb:35-42 | With no exchange rate, or a rate of 1, the amount equals the signed cents. |
| JournalEntries.ValidateEntry | app/models/journal_entry.rb:27-29 | Each rule adds its own error, exactly when that rule fails: a blank posted date; a missing amount; an amount not greater than 0; a date after next_entry's; a date before previous_entry's. The two neighbour checks are independent. The entry passes the validations of lines 27-29 and `validate_posted_date` iff it has a positive amount, a posted date, and a date between its neighbours' dates. A blank date that is compared with a neighbour's date raises instead of adding an error. |
| EntryChain.NeighbourChecksIffSorted | app/models/journal_entry.rb:76-84 | Every entry of a chain passes both neighbour checks iff the chain is sorted by date. |
| EntryChain.FirstLaterIndex | app/models/journal_entry.rb:89 | The index is the first position dated after d: every earlier entry is dated on or before d. |
| EntryChain.LastAtOrBeforeIndex | app/models/journal_entry.rb:92 | The index is the last position dated on or before d: every later entry is dated after d. |
| EntryChain.AccountChain.FirstEntryAfter | app/models/journal_entry.rb:89 | Scanning the links from the head returns the chain entry at FirstLaterIndex, or none when no entry is later. |
| EntryChain.AccountChain.LastEntryAtOrBefore | app/models/journal_entry.rb:92 | Scanning the whole chain returns the chain entry at LastAtOrBeforeIndex, or none. |
| EntryChain.AccountChain.PreviousEntry | app/models/journal_entry.rb:19-20 | Returns the row whose next_entry is x, or none when no row points at x. On the chain, this is the entry just before x. |
| EntryChain.OnlyPredecessorLinks | app/models/journal_entry.rb:19-20 | On a chain covering the rows, the only row linking to the i-th entry is the (i-1)-th, so previous_entry is well defined. |
| EntryChain.FallbackIsBeforeInsertionPoint | app/models/journal_entry.rb:91-92 | On a sorted chain with no successor, or with the head as successor, the fallback lookup returns the entry just before the insertion point. |
| EntryChain.AccountChain.Neighbours | app/models/journal_entry.rb:89-92 | On a valid chain, the lookup returns the entries at either side of the first position dated after d: the successor at that position and the predecessor just before it. |
| EntryChain.AccountChain.Insert | app/models/journal_entry.rb:86-95 | Creating an entry without a preset next_entry keeps the chain valid. The entry lands after every entry dated on or before d and before the first later one. Entries before it keep their stamps. Every entry from it to the tail is numbered from its predecessor. No other date changes. (posted_date, order) is unique afterwards. |
| EntryChain.InsertKeepsOrdered | app/models/journal_entry.rb:64-71 | Splicing an entry in at the insertion point and numbering from there keeps the chain sorted. Same-day orders increase and are unique. |
| EntryChain.InsertedChain | app/models/journal_entry.rb:91-94 | The spliced and renumbered rows form one chain over all rows, with the entry at the insertion point. The stamps are sorted, unique, and unchanged before the entry. |
| EntryChain.AccountChain.InsertBefore | app/models/journal_entry.rb:86-87 | With a preset next_entry, no other link is written. The entry gets order 1, and orders are renumbered from next_entry to the tail. The rows form a chain iff next_entry was the head: then the entry becomes the new head. Otherwise no chain covers the rows, and the head and the recorded chain are unchanged. |
| EntryChain.SharedSuccessorBreaksChain | app/models/journal_entry.rb:19-20 | Two rows pointing at the same next_entry cannot both lie on one chain. |
| EntryChain.SharedSuccessorAfterInsert | app/models/journal_entry.rb:87 | Presetting next_entry to an entry that already has a predecessor leaves no chain covering the rows. |
| EntryChain.AccountChain.AssignOrderNumber | app/models/journal_entry.rb:59-72 | The cascade renumbers each entry of the path from the start to the tail. Each gets its predecessor's order plus one when the predecessor is on the same day, and 1 otherwise. Only orders change. Links, dates, and rows off the path are unchanged. |
| EntryChain.SameDayOrdersIncrease | app/models/journal_entry.rb:64-69 | On a sorted chain whose orders increase within a day, an earlier same-day entry has a smaller order. |
| EntryChain.CascadeBumpsSameDayOnly | app/models/journal_entry.rb:71 | After an insertion into a densely numbered chain, the cascade bumps each later entry on the new entry's day by one. Every entry on another day keeps its order. |
| EntryChain.OrderedIsUnique | db/migrate/20240111024211_create_journal_entries.rb:19 | A sorted chain whose orders increase within a day satisfies the unique index on (account, posted_date, order). db/schema.rb:40 declares this index without `unique: true`, so the database schema and the migration disagree. |
| EntryChain.AccountChain.Remove | app/models/journal_entry.rb:97-98 | The predecessor's next_entry becomes the removed entry's next_entry, and no other link changes. Every remaining row keeps its date and order. The entry leaves the chain, and the other entries keep their order. The chain stays valid and (posted_date, order) unique. |
| EntryChain.RemoveKeepsOrdered | app/models/journal_entry.rb:97-98 | Dropping any one entry keeps a chain sorted, with orders increasing and unique within a day. |
| EntryChain.UnlinkedPath | app/models/journal_entry.rb:98 | Re-pointing the predecessor past the k-th entry and dropping that entry leaves one chain over the remaining rows. |
| EntryChain.TwoTailsBreakChain | app/models/journal_entry.rb:18 | Two rows without a next_entry cannot both lie on one chain. |
| EntryChain.OrderColumnLastMissesTail | app/models/journal_entry.rb:92 | Counterexample: on the sorted chain [(day 1, 1), (day 1, 2), (day 2, 1)], `.last` by the order column for day 3 returns position 1. The chain's tail is position 2. |
| EntryChain.OrderColumnLastBreaksChain | app/models/journal_entry.rb:91-92 | Counterexample: linking the day-3 entry after the entry that `.last` chose leaves no chain covering the rows. |
| EntryChain.OrderColumnFirstMayMisplace | app/models/journal_entry.rb:89 | Counterexample: for day 3 on the chain [(day 5, 1), (day 6, 1)], `.first` by the order column may return the day-6 entry. Splicing in before it leaves the chain unsorted. |
| Transactions.UniqLength | app/models/transackshun.rb:17 | `uniq` keeps exactly the values of its input, each once, and is never longer. Its length equals the input's iff no value repeats. |
| Transactions.HasDuplicateAccounts | app/models/transackshun.rb:16-19 | The check `length != uniq.length` is true iff two entries share an account. |
| Transactions.ValidateEntryIntegrity | app/models/transackshun.rb:10-20 | "are not balanced" is added iff the signed cents do not sum to 0. "must have unique accounts" is added iff an account repeats. Both checks always run. The result is empty iff the transaction is balanced and its accounts are unique. |
| Transactions.TotalIgnoresOrder | app/models/transackshun.rb:11 | The sum of signed amounts is the same for any rearrangement of the entries. |
| Transactions.UniqueIgnoresOrder | app/models/transackshun.rb:16-17 | Whether the accounts are unique is the same for any rearrangement of the entries. |
| Transactions.ValidationIgnoresOrder | app/models/transackshun.rb:10-20 | The errors are the same for any rearrangement of the entries. |
| Transactions.TotalAfterChange | app/models/transackshun.rb:11-14 | Changing one entry's cents changes the total by the difference, signed by that entry's type. |
| Transactions.OneCentOff | test/models/transackshun_test.rb:7-15 | A valid transaction with one entry raised by one cent has exactly one error: "are not balanced". |
| Transactions.BalancedPair | test/factories/transackshuns.rb:9 | A credit and a debit of equal cents on two different accounts give no errors. |
| Transactions.RepeatedAccount | test/models/transackshun_test.rb:18-33 | Two credits of 50 on one account against a debit of 100 give exactly one error: "must have unique accounts". |
| Ledger.Without | app/models/transackshun.rb:4 | Dropping a set of ids keeps exactly the other ids and never lengthens the sequence. |
| Ledger.WithoutStep | app/models/journal_entry.rb:97-98 | Removing an entry from a chain that has already lost some entries is the same as dropping one more id from the original chain. |
| Ledger.RemoveOne | app/models/transackshun.rb:4 | Destroying one more owned entry keeps its account's chain valid. The chain becomes the original chain minus every entry destroyed so far. The stored ids are the original ids minus those entries. Every remaining row keeps its original posted_date and order. |
| Ledger.DestroyTransaction | app/models/transackshun.rb:4 | After destroying a transaction, every account's chain is still valid. It lists exactly its former entries minus the transaction's, in the same order. Its stored ids are the former ids minus those entries. Every remaining row keeps its posted_date and order. Its links are repaired: they are exactly the links of that shorter chain. |

## Left out

- Money conversion: `Money.from_cents(...).to_f`, the `amount=` writer, and division by a decimal exchange rate are floating-point or decimal arithmetic in an external library. Only integer cents are modelled.
- JournalEntries.Amount: is the product of cents, sign, and rate before `Money.from_cents(...).to_f`. At every rate, that conversion divides by the currency's minor units per unit, so 12345 cents reads as 123.45. With a non-unit rate, the library also rounds the product to whole minor units. The model states nothing for rates other than 1.
- JournalEntries.ValidateEntry: does not model the "must exist" checks that `belongs_to :account` and `belongs_to :transackshun` (app/models/journal_entry.rb:16-17, not optional) add, which are declared before lines 27-29. An entry without an account or a transaction fails those checks in the source, whatever this function returns.
- Transactions.ValidateEntryIntegrity: sums integer cents at an exchange rate of 1 instead of each entry's converted `amount` rounded to 2 decimals. The two agree when every rate is 1 and every account's currency has 100 minor units per unit. Across currencies, or in a currency with other minor units, `Money.from_cents(...).to_f` and the rounding to 2 decimals can make them differ.
- EntryChain.AccountChain.Remove: models only the link repair. The `reload` and `assign_order_number` after it (marked untested in the source) are not modelled, so `order` can have gaps after a removal. For that reason the class invariant requires orders to increase within a day, not to be dense.
- Persistence: SQL, `autosave`, foreign keys, `dependent: :restrict_with_error`, and the callback machinery are not modelled. `where(...).first` and `.last` are chain scans. The "## Findings" lemmas model what the query returns.
- Validation order: an entry's validations run before `before_create` sets its links. The model has no save cycle, so `JournalEntries.ValidateEntry` is not combined with `Insert`. `InsertBefore` requires what the date check against a preset next_entry demands.
- Per-entry validation of a transaction's entries (`validate: true` on the association) is not combined with `Transactions.ValidateEntryIntegrity`.
- Running `validate_entry_integrity` twice: the model is a pure function of the entries, so it gives the same errors every time by construction. No lemma states this.
- The `head` field of `AccountChain` is part of the model only. It names the entry no row points at, which the database finds by query.
- `matching_entry`, `balance`, `cleared_date`, and `app/models/account.rb` (a bare association) carry no logic.
- Concurrency and atomicity of the writes: each method is one atomic step.
- Cross-account links: the source never checks that a preset `next_entry` belongs to the same account. `AccountChain` holds one account's rows, so `InsertBefore` requires the preset entry to be among them. A link from one account's chain into another's is outside this model.

## Findings

| source | as written | input that shows it | evidently intended | confidence | as-written member | corrected member |
|---|---|---|---|---|---|---|
| app/models/journal_entry.rb:92 | Under `default_scope { order(order: :asc) }`, `where('posted_date <= ?', d).last` returns the entry with the greatest `order` among those dated on or before d, not the last such entry on the chain. | Entries (day 1, order 1), (day 1, order 2), (day 2, order 1) in one account, then a new entry on day 3. `.last` picks the second day-1 entry, which then points at the new entry. The day-2 entry loses its predecessor. | The predecessor is the chain's tail: the last entry in date order on or before d. | not executed | EntryChain.OrderColumnLastMissesTail, EntryChain.OrderColumnLastBreaksChain | EntryChain.AccountChain.Neighbours |
| app/models/journal_entry.rb:89 | `where('posted_date > ?', d).first` orders only by `order`. The first entry of every later day has order 1, so the database may return any of them. | Entries (day 5, order 1), (day 6, order 1), then a new entry on day 3. If the day-6 entry is returned, the new entry is spliced between day 5 and day 6, out of date order. | The successor is the earliest entry dated after d. | not executed; depends on the order the database returns tied rows in | EntryChain.OrderColumnFirstMayMisplace | EntryChain.AccountChain.Neighbours |
