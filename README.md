# Advanced activation fact, modelled in Dafny

The job builds the table `gold__fact_advanced_activation` with one SQL statement. For every account in `gold__dim_accounts`, the table records whether the account was *activated* within 14 days of signup. Activation needs two signals:

- core product usage: a row of `gold__fact_product_events` whose `HasDealContext` is TRUE;
- pipeline activity: a row of `gold__fact_deals`.

Each signal has to fall between `CreatedDate` and `CreatedDate + 14` days, both bounds included.

The statement is modelled as a pure function, `Activation.ActivationTable`, from the three input tables to the output rows. The model follows the SQL clause by clause:

- `CoreActivity`: the `HasDealContext = TRUE` filter.
- `DealActivity`: projects each deal to its account and date.
- `JoinWindow` and `WindowGroup`: the `JOIN accounts` with its `BETWEEN` window, grouped by AccountId.
- `Aggregate`: `MIN` and `COUNT(*)` of a group. An empty group yields no CTE row.
- `SelectRow`: the select list, with its CASE and COALESCE columns, for one account row and its LEFT JOIN partners.
- `SortByAccountId`: `ORDER BY AccountId`, as a stable sort.

Dates are whole day numbers. So `+ INTERVAL 14 DAY` becomes `+ 14` and `DATE_DIFF('day', x, y)` becomes `y - x`. A column the query can leave NULL is an `Option`, and so is the input flag `HasDealContext`.

The query does not require AccountIds to be unique, and neither does the model. It reproduces what the join does when an id repeats: every repeated account row yields its own output row (`FactRows`), and an event or deal joins once per account row with its id whose window holds it (`JoinWindow`), so it is counted once per such row. `ActivationScenarios.DuplicateAccountDoublesCounts` and `ActivationScenarios.DuplicateAccountEscapesWindow` show this. The per-account properties assume unique AccountIds (`ActivationProperties.UniqueAccountIds`), because they are only true under that assumption. Each of those properties is proved against a reference definition that does not mention the join: the filters `QualifyingEvents` and `QualifyingDeals`.

Re-running the statement on unchanged inputs gives the same table. This holds because the model is a function of its inputs.

Files:

- `options.dfy`: `Option`.
- `activation.dfy`: the data model and the statement.
- `activation_properties.dfy`: what the statement guarantees.
- `activation_scenarios.dfy`: concrete inputs and their output tables.

## Model

| member | source | states |
|---|---|---|
| `Activation.CoreActivity` | Module_3_gold__fact_advanced_activation.py:40-43 | membership: an activity is in the result exactly when some event whose HasDealContext is TRUE (not FALSE, not NULL) has its AccountId and EventDate; how often each one occurs is pinned down by `ActivationProperties.CoreGroupOfUniqueAccount` |
| `Activation.DealActivity` | Module_3_gold__fact_advanced_activation.py:52-55 | every deal passes on, position by position, as (AccountId, CreatedDate) |
| `Activation.MatchingRows` | Module_3_gold__fact_advanced_activation.py:41-45 | the number of account rows an activity joins and whose window holds its date: at most the number of account rows, and positive exactly when such a row exists |
| `Activation.JoinWindow` | Module_3_gold__fact_advanced_activation.py:41-45 | the joined rows of an activity are exactly `MatchingRows` copies of its date: one per account row with its id whose window contains the date |
| `Activation.WindowGroup` | Module_3_gold__fact_advanced_activation.py:40-46 | soundness: every date in group `id` is the date of an activity of `id` that lies in the window of some account row with `id` |
| `Activation.WindowGroupComplete` | Module_3_gold__fact_advanced_activation.py:40-46 | completeness: every activity of `id` whose date lies in the window of some account row with `id` puts its date into group `id` |
| `Activation.MinDate` | Module_3_gold__fact_advanced_activation.py:38 | MIN of a non-empty group is one of its dates and no date of the group is smaller |
| `Activation.Aggregate` | Module_3_gold__fact_advanced_activation.py:38-39 | a group yields a CTE row exactly when it is non-empty; the row's count is the group size and its date is the group's minimum |
| `Activation.CoreSignal` | Module_3_gold__fact_advanced_activation.py:34-47 | the core_events row looked up by AccountId; when present its COUNT(*) is positive |
| `Activation.DealSignal` | Module_3_gold__fact_advanced_activation.py:49-61 | the deals row looked up by AccountId; when present its COUNT(*) is positive |
| `Activation.CoreSignalMeaning` | Module_3_gold__fact_advanced_activation.py:34-47 | for any account table, duplicates included: the core_events row of `id` exists exactly when some event with a TRUE flag joins an account row with `id` inside that row's window; its date is then the EventDate of a qualifying (event, account row) pair, and no such pair has an earlier date, so it is the MIN over the join |
| `Activation.DealSignalMeaning` | Module_3_gold__fact_advanced_activation.py:49-61 | for any account table: the deals row of `id` exists exactly when some deal joins an account row with `id` inside that row's window; its date is then the CreatedDate of a qualifying (deal, account row) pair, and no such pair has an earlier date, so it is the MIN over the join |
| `Activation.Greatest` | Module_3_gold__fact_advanced_activation.py:75 | GREATEST is at least both arguments and equals one of them |
| `Activation.SelectRow` | Module_3_gold__fact_advanced_activation.py:63-101 | AccountId and CreatedDate come from the account; each first date is present exactly when its LEFT JOIN partner exists, and each count is the partner's COUNT or 0; the derived columns satisfy `ConsistentFact`: activated iff both first dates are present, ActivationDate and TimeToValueDays present iff activated, ActivationDate the later first date, TimeToValueDays = ActivationDate - CreatedDate, each count > 0 iff its first date is present |
| `Activation.FactRow` | Module_3_gold__fact_advanced_activation.py:63-107 | the output row of an account row carries that row's AccountId and CreatedDate and satisfies `ConsistentFact` |
| `Activation.FactRowSignals` | Module_3_gold__fact_advanced_activation.py:63-107 | for any account table: an account row's FirstCoreEventDate, respectively FirstDealDate, is present exactly when some account row with its id has a qualifying event, respectively deal |
| `Activation.FactRows` | Module_3_gold__fact_advanced_activation.py:103-107 | the LEFT JOINs keep every account row in place: one output row per account row, with the same AccountId and CreatedDate, each satisfying `ConsistentFact` |
| `Activation.InsertByAccountId` | Module_3_gold__fact_advanced_activation.py:108 | inserting a row into rows sorted by AccountId keeps them sorted and adds exactly that row |
| `Activation.SortByAccountId` | Module_3_gold__fact_advanced_activation.py:108 | the result is sorted by ascending AccountId and is a permutation of its input |
| `Activation.ActivationTable` | Module_3_gold__fact_advanced_activation.py:25-108 | one row per account row, ascending AccountId, a permutation of the per-account rows; every row is some account's row and satisfies `ConsistentFact` (IsActivated is always a definite boolean) |
| `ActivationProperties.QualifyingEvents` | Module_3_gold__fact_advanced_activation.py:40-45 | reference filter: the events of account `a` with a TRUE flag and a date in `a`'s window, and no others |
| `ActivationProperties.QualifyingDeals` | Module_3_gold__fact_advanced_activation.py:55-59 | reference filter: the deals of account `a` dated in `a`'s window, and no others |
| `ActivationProperties.QualifyingEventsMultiplicity` | Module_3_gold__fact_advanced_activation.py:39 | the filter keeps each qualifying event as often as the table holds it, so its length is the number of qualifying event rows |
| `ActivationProperties.QualifyingDealsMultiplicity` | Module_3_gold__fact_advanced_activation.py:54 | the filter keeps each qualifying deal as often as the table holds it |
| `ActivationProperties.JoinWindowOfUniqueAccount` | Module_3_gold__fact_advanced_activation.py:41-45 | with unique ids, an activity of account `a` joins only `a`, once if `a`'s window contains its date and not at all otherwise |
| `ActivationProperties.CoreGroupOfUniqueAccount` | Module_3_gold__fact_advanced_activation.py:34-47 | with unique ids, the core_events group of `a` is exactly the dates of `a`'s qualifying events, in table order |
| `ActivationProperties.DealGroupOfUniqueAccount` | Module_3_gold__fact_advanced_activation.py:49-61 | with unique ids, the deals group of `a` is exactly the dates of `a`'s qualifying deals |
| `ActivationProperties.CoreColumnsOfAccount` | Module_3_gold__fact_advanced_activation.py:36-46 | FirstCoreEventDate is present iff some event of `a` qualifies, and is then the date of a qualifying event that no qualifying event precedes; CoreEventsInFirst14Days is the number of qualifying events (0 when none) |
| `ActivationProperties.DealColumnsOfAccount` | Module_3_gold__fact_advanced_activation.py:51-60 | FirstDealDate is present iff some deal of `a` qualifies, and is then the earliest qualifying deal date; DealsInFirst14Days is the number of qualifying deals (0 when none) |
| `ActivationProperties.ActivationOfAccount` | Module_3_gold__fact_advanced_activation.py:72-97 | with unique ids, `a` is activated iff it has both a qualifying event and a qualifying deal; then ActivationDate lies in `a`'s window and TimeToValueDays = ActivationDate - CreatedDate |
| `ActivationProperties.SortOfDistinctIsStrict` | Module_3_gold__fact_advanced_activation.py:108 | sorting rows with pairwise distinct AccountIds gives strictly ascending AccountIds |
| `ActivationProperties.OneRowPerAccount` | Module_3_gold__fact_advanced_activation.py:103-108 | with unique ids, the table has one row per account, in strictly ascending AccountId order; each account's row is present; the row carrying an account's id is that account's row, with its CreatedDate |
| `ActivationProperties.TimeToValueWithinWindow` | Module_3_gold__fact_advanced_activation.py:88-97 | with unique ids, every activated row has an ActivationDate and 0 <= TimeToValueDays <= 14 |
| `ActivationProperties.NonQualifyingEventIgnored` | Module_3_gold__fact_advanced_activation.py:43-45 | adding a product event that qualifies for no account row changes no output row, whether its flag is not TRUE, its date is outside the window or its account is unknown |
| `ActivationProperties.NonQualifyingDealIgnored` | Module_3_gold__fact_advanced_activation.py:58-59 | adding a deal that qualifies for no account row changes no output row |
| `ActivationScenarios.BothSignalsActivate` | Module_3_gold__fact_advanced_activation.py:72-97 | signup 2024-01-01, core event 01-05, deal 01-10: activated on 01-10, TimeToValueDays 9, both counts 1 |
| `ActivationScenarios.LateEventIgnored` | Module_3_gold__fact_advanced_activation.py:44-45 | a core event 19 days after signup leaves FirstCoreEventDate absent and IsActivated false |
| `ActivationScenarios.SilentAccountGetsRow` | Module_3_gold__fact_advanced_activation.py:100-107 | an account with no events and no deals still gets a row, with absent dates, counts 0 and IsActivated false |
| `ActivationScenarios.WindowBoundsInclusive` | Module_3_gold__fact_advanced_activation.py:58-59 | dates on day 0 and day 14 count; dates on day -1 and day 15 do not |
| `ActivationScenarios.FlagMustBeTrue` | Module_3_gold__fact_advanced_activation.py:43 | events whose HasDealContext is NULL or FALSE are not core usage |
| `ActivationScenarios.OrderedByAccountId` | Module_3_gold__fact_advanced_activation.py:108 | rows come out by ascending AccountId whatever the order of the account table |
| `ActivationScenarios.DuplicateAccountDoublesCounts` | Module_3_gold__fact_advanced_activation.py:40-42 | two account rows with one id give two output rows, and each counts the account's single event twice |
| `ActivationScenarios.DuplicateAccountEscapesWindow` | Module_3_gold__fact_advanced_activation.py:55-59 | two account rows with one id share one group, so the earlier signup gets 20 days to value from signals that lie in the other row's window; only the multiset of the two rows is stated, since SQL leaves their order open |

## Left out

- The connection, the relative database path, the confirmation line and the closing of the connection (lines 1-5 and 111-113) are I/O around the statement.
- `CREATE OR REPLACE TABLE` persistence (line 25): the model returns the table's rows. The failure paths (a missing table, a type error) are left out as well, because all of them are database errors.
- Calendar semantics are left out. `CAST(... AS DATE)` on timestamps, time zones and calendar arithmetic are not modelled; every date is already a day number.
- AccountId is an integer in the model. The column's SQL type is not visible in the source, and only its total order matters.
- NULL in any column other than `HasDealContext` is left out: a NULL AccountId, a NULL event date or a NULL deal date.
- `Activation.SortByAccountId`: when several account rows share an AccountId, SQL leaves their relative order open. The model keeps their input order, which is one of the orders SQL allows.
- `Activation.SelectRow`: requires every count it receives to be positive. `COUNT(*)` of a GROUP BY group is never 0, and `Activation.Aggregate` proves this.
- DuckDB's join and aggregation strategy is left out. Only the contents of the table and its final order are modelled.
