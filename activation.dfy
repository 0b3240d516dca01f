/**
  The statement that builds gold__fact_advanced_activation, as a pure function
  from the three upstream tables to the rows of the derived table.

  Dates are whole day numbers, so `+ INTERVAL 14 DAY` is `+ 14` and
  `DATE_DIFF('day', x, y)` is `y - x`. A column that the query may leave
  NULL is an `Option`.
*/
module Activation {
  import opened Options

  type AccountId = int

  /** A calendar day, counted in days. */
  type Date = int

  /** Length of the activation window after signup; both bounds are inclusive. */
  const WindowDays: int := 14

  /** A row of gold__dim_accounts. */
  datatype Account = Account(accountId: AccountId, createdDate: Date)

  /** A row of gold__fact_product_events; HasDealContext may be NULL. */
  datatype ProductEvent = ProductEvent(accountId: AccountId, eventDate: Date, hasDealContext: Option<bool>)

  /** A row of gold__fact_deals. */
  datatype Deal = Deal(accountId: AccountId, createdDate: Date)

  /** The (AccountId, date) pair that a signal CTE reads from each of its input rows. */
  datatype Activity = Activity(accountId: AccountId, date: Date)

  /** One row of the core_events or the deals CTE: MIN of the dates and COUNT(*) of its group. */
  datatype Signal = Signal(firstDate: Date, count: nat)

  /** A row of gold__fact_advanced_activation. */
  datatype ActivationFact = ActivationFact(
    accountId: AccountId,
    createdDate: Date,
    firstCoreEventDate: Option<Date>,
    firstDealDate: Option<Date>,
    activationDate: Option<Date>,
    isActivated: bool,
    timeToValueDays: Option<int>,
    coreEventsInFirst14Days: nat,
    dealsInFirst14Days: nat)

  // ---------------------------------------------------------------------------
  // Filters

  /** `d BETWEEN a.CreatedDate AND a.CreatedDate + INTERVAL 14 DAY` */
  predicate InWindow(d: Date, a: Account) {
    a.createdDate <= d <= a.createdDate + WindowDays
  }

  /** `e.HasDealContext = TRUE`: a NULL flag compares to NULL and is filtered out. */
  predicate IsCoreEvent(e: ProductEvent) {
    e.hasDealContext == Some(true)
  }

  /** Event `e` survives the join with account row `a` and the WHERE clause of core_events. */
  predicate CoreQualifies(e: ProductEvent, a: Account) {
    e.accountId == a.accountId && IsCoreEvent(e) && InWindow(e.eventDate, a)
  }

  /** Deal `d` survives the join with account row `a` and the WHERE clause of deals. */
  predicate DealQualifies(d: Deal, a: Account) {
    d.accountId == a.accountId && InWindow(d.createdDate, a)
  }

  // ---------------------------------------------------------------------------
  // The two signal CTEs

  /** The product events that pass `HasDealContext = TRUE`, as activities. */
  function CoreActivity(events: seq<ProductEvent>): (acts: seq<Activity>)
    ensures |acts| <= |events|
    ensures forall x :: x in acts <==>
              exists e :: e in events && IsCoreEvent(e) && x == Activity(e.accountId, e.eventDate)
  {
    if events == [] then []
    else
      (if IsCoreEvent(events[0]) then [Activity(events[0].accountId, events[0].eventDate)] else [])
      + CoreActivity(events[1..])
  }

  /** Every deal, as an activity dated by the deal's CreatedDate. */
  function DealActivity(deals: seq<Deal>): (acts: seq<Activity>)
    ensures |acts| == |deals|
    ensures forall i :: 0 <= i < |deals| ==> acts[i] == Activity(deals[i].accountId, deals[i].createdDate)
  {
    if deals == [] then []
    else [Activity(deals[0].accountId, deals[0].createdDate)] + DealActivity(deals[1..])
  }

  /** The number of account rows that activity `x` joins on AccountId and whose window holds its date. */
  function MatchingRows(x: Activity, accounts: seq<Account>): (n: nat)
    ensures n <= |accounts|
    ensures n > 0 <==> exists a :: a in accounts && a.accountId == x.accountId && InWindow(x.date, a)
  {
    if accounts == [] then 0
    else
      (if x.accountId == accounts[0].accountId && InWindow(x.date, accounts[0]) then 1 else 0)
      + MatchingRows(x, accounts[1..])
  }

  /** The rows that activity `x` contributes to `x JOIN accounts ON AccountId`
      after the window filter: one copy of its date per matching account row. */
  function JoinWindow(x: Activity, accounts: seq<Account>): (ds: seq<Date>)
    ensures ds == seq(MatchingRows(x, accounts), _ => x.date)
  {
    if accounts == [] then []
    else
      (if x.accountId == accounts[0].accountId && InWindow(x.date, accounts[0]) then [x.date] else [])
      + JoinWindow(x, accounts[1..])
  }

  /** The group `id` of `acts JOIN accounts` after the window filter, projected to its dates. */
  function WindowGroup(acts: seq<Activity>, accounts: seq<Account>, id: AccountId): (ds: seq<Date>)
    ensures forall d :: d in ds ==>
              exists x :: x in acts && x.accountId == id && x.date == d &&
                exists a :: a in accounts && a.accountId == id && InWindow(d, a)
  {
    if acts == [] then []
    else
      (if acts[0].accountId == id then JoinWindow(acts[0], accounts) else [])
      + WindowGroup(acts[1..], accounts, id)
  }

  /** Every activity of `id` whose date lies in the window of some account row with `id`
      puts its date into group `id`. */
  lemma {:induction false} WindowGroupComplete(acts: seq<Activity>, accounts: seq<Account>, id: AccountId)
    ensures forall x, a ::
              (x in acts && x.accountId == id && a in accounts && a.accountId == id && InWindow(x.date, a)) ==>
              x.date in WindowGroup(acts, accounts, id)
  {
    if acts != [] {
      WindowGroupComplete(acts[1..], accounts, id);
      forall x, a | x in acts && x.accountId == id && a in accounts && a.accountId == id && InWindow(x.date, a)
        ensures x.date in WindowGroup(acts, accounts, id)
      {
        if x != acts[0] {
          assert x in acts[1..];
        } else {
          assert MatchingRows(x, accounts) > 0;
          assert JoinWindow(x, accounts)[0] == x.date;
        }
      }
    }
  }

  /** The least date of a non-empty group (SQL MIN). */
  function MinDate(ds: seq<Date>): (m: Date)
    requires ds != []
    ensures m in ds
    ensures forall d :: d in ds ==> m <= d
  {
    if |ds| == 1 then ds[0]
    else
      assert ds == [ds[0]] + ds[1..];
      var rest := MinDate(ds[1..]);
      if ds[0] <= rest then ds[0] else rest
  }

  /** The CTE row of a group, or None when the group is empty (GROUP BY yields no row). */
  function Aggregate(ds: seq<Date>): (s: Option<Signal>)
    ensures s.None? <==> ds == []
    ensures s.Some? ==> s.value.count == |ds| && s.value.firstDate in ds &&
                        forall d :: d in ds ==> s.value.firstDate <= d
  {
    if ds == [] then None else Some(Signal(MinDate(ds), |ds|))
  }

  /** The core_events CTE row of account id `id`; GROUP BY yields no row for an empty group. */
  function CoreSignal(accounts: seq<Account>, events: seq<ProductEvent>, id: AccountId): (s: Option<Signal>)
    ensures s.Some? ==> s.value.count > 0
  {
    Aggregate(WindowGroup(CoreActivity(events), accounts, id))
  }

  /** The deals CTE row of account id `id`; GROUP BY yields no row for an empty group. */
  function DealSignal(accounts: seq<Account>, deals: seq<Deal>, id: AccountId): (s: Option<Signal>)
    ensures s.Some? ==> s.value.count > 0
  {
    Aggregate(WindowGroup(DealActivity(deals), accounts, id))
  }

  /** The core_events row of `id` is present exactly when some product event joins an account row
      with `id` and passes the WHERE clause, and is then dated by the least such event (SQL MIN over the join). */
  lemma CoreSignalMeaning(accounts: seq<Account>, events: seq<ProductEvent>, id: AccountId)
    ensures var s := CoreSignal(accounts, events, id);
      && (s.Some? <==> exists e, a :: e in events && a in accounts && a.accountId == id && CoreQualifies(e, a))
      && (s.Some? ==>
            exists e, a :: e in events && a in accounts && a.accountId == id && CoreQualifies(e, a) &&
              e.eventDate == s.value.firstDate)
      && (s.Some? ==>
            forall e, a :: e in events && a in accounts && a.accountId == id && CoreQualifies(e, a) ==>
              s.value.firstDate <= e.eventDate)
  {
    var acts := CoreActivity(events);
    WindowGroupComplete(acts, accounts, id);
    assert forall e, a :: e in events && a in accounts && a.accountId == id && CoreQualifies(e, a) ==>
      Activity(e.accountId, e.eventDate) in acts;
    var g := WindowGroup(acts, accounts, id);
    if g != [] {
      var m := MinDate(g);
      var x :| x in acts && x.accountId == id && x.date == m &&
        exists a :: a in accounts && a.accountId == id && InWindow(m, a);
      var a :| a in accounts && a.accountId == id && InWindow(m, a);
      var e :| e in events && IsCoreEvent(e) && x == Activity(e.accountId, e.eventDate);
      assert CoreQualifies(e, a);
    }
  }

  /** The deals row of `id` is present exactly when some deal joins an account row with `id`
      inside its window, and is then dated by the least such deal. */
  lemma DealSignalMeaning(accounts: seq<Account>, deals: seq<Deal>, id: AccountId)
    ensures var s := DealSignal(accounts, deals, id);
      && (s.Some? <==> exists d, a :: d in deals && a in accounts && a.accountId == id && DealQualifies(d, a))
      && (s.Some? ==>
            exists d, a :: d in deals && a in accounts && a.accountId == id && DealQualifies(d, a) &&
              d.createdDate == s.value.firstDate)
      && (s.Some? ==>
            forall d, a :: d in deals && a in accounts && a.accountId == id && DealQualifies(d, a) ==>
              s.value.firstDate <= d.createdDate)
  {
    var acts := DealActivity(deals);
    WindowGroupComplete(acts, accounts, id);
    forall d | d in deals ensures Activity(d.accountId, d.createdDate) in acts {
      var i :| 0 <= i < |deals| && deals[i] == d;
      assert acts[i] == Activity(d.accountId, d.createdDate);
    }
    var g := WindowGroup(acts, accounts, id);
    if g != [] {
      var m := MinDate(g);
      var y :| y in acts && y.accountId == id && y.date == m &&
        exists a :: a in accounts && a.accountId == id && InWindow(m, a);
      var a :| a in accounts && a.accountId == id && InWindow(m, a);
      var i :| 0 <= i < |acts| && acts[i] == y;
      assert DealQualifies(deals[i], a);
    }
  }

  // ---------------------------------------------------------------------------
  // The final SELECT

  /** SQL GREATEST of two dates. */
  function Greatest(x: Date, y: Date): (g: Date)
    ensures x <= g && y <= g
    ensures g == x || g == y
  {
    if x < y then y else x
  }

  /** How the derived columns of a row relate to its two first dates and its counts. */
  predicate ConsistentFact(f: ActivationFact) {
    && (f.isActivated <==> f.firstCoreEventDate.Some? && f.firstDealDate.Some?)
    && (f.activationDate.Some? <==> f.isActivated)
    && (f.timeToValueDays.Some? <==> f.isActivated)
    && (f.isActivated ==>
          && f.firstCoreEventDate.value <= f.activationDate.value
          && f.firstDealDate.value <= f.activationDate.value
          && (f.activationDate.value == f.firstCoreEventDate.value ||
              f.activationDate.value == f.firstDealDate.value)
          && f.timeToValueDays.value == f.activationDate.value - f.createdDate)
    && (f.coreEventsInFirst14Days > 0 <==> f.firstCoreEventDate.Some?)
    && (f.dealsInFirst14Days > 0 <==> f.firstDealDate.Some?)
  }

  /** The select list for account row `a` and its LEFT JOIN partners (None when unmatched). */
  function SelectRow(a: Account, core: Option<Signal>, deal: Option<Signal>): (f: ActivationFact)
    requires core.Some? ==> core.value.count > 0
    requires deal.Some? ==> deal.value.count > 0
    ensures f.accountId == a.accountId && f.createdDate == a.createdDate
    ensures f.firstCoreEventDate.Some? <==> core.Some?
    ensures f.firstDealDate.Some? <==> deal.Some?
    ensures core.Some? ==> f.firstCoreEventDate.value == core.value.firstDate &&
                           f.coreEventsInFirst14Days == core.value.count
    ensures deal.Some? ==> f.firstDealDate.value == deal.value.firstDate &&
                           f.dealsInFirst14Days == deal.value.count
    ensures ConsistentFact(f)
  {
    var firstCore := if core.Some? then Some(core.value.firstDate) else None;
    var firstDeal := if deal.Some? then Some(deal.value.firstDate) else None;
    var both := firstCore.Some? && firstDeal.Some?;
    var activation := if both then Some(Greatest(firstCore.value, firstDeal.value)) else None;
    ActivationFact(
      a.accountId,
      a.createdDate,
      firstCore,
      firstDeal,
      activation,
      both,
      if both then Some(activation.value - a.createdDate) else None,
      if core.Some? then core.value.count else 0,
      if deal.Some? then deal.value.count else 0)
  }

  /** The output row built for account row `a`: its own AccountId and CreatedDate, with derived
      columns consistent with the first dates and counts. */
  function FactRow(accounts: seq<Account>, events: seq<ProductEvent>, deals: seq<Deal>, a: Account): (f: ActivationFact)
    ensures f.accountId == a.accountId && f.createdDate == a.createdDate
    ensures ConsistentFact(f)
  {
    SelectRow(a, CoreSignal(accounts, events, a.accountId), DealSignal(accounts, deals, a.accountId))
  }

  /** Whatever the ids, the first dates of account row `a` are present exactly when some account row
      with `a`'s id has a qualifying product event, respectively deal. */
  lemma FactRowSignals(accounts: seq<Account>, events: seq<ProductEvent>, deals: seq<Deal>, a: Account)
    ensures var f := FactRow(accounts, events, deals, a);
      && (f.firstCoreEventDate.Some? <==>
            exists e, b :: e in events && b in accounts && b.accountId == a.accountId && CoreQualifies(e, b))
      && (f.firstDealDate.Some? <==>
            exists d, b :: d in deals && b in accounts && b.accountId == a.accountId && DealQualifies(d, b))
  {
    CoreSignalMeaning(accounts, events, a.accountId);
    DealSignalMeaning(accounts, deals, a.accountId);
  }

  /** `FROM accounts a LEFT JOIN core_events e LEFT JOIN deals d`, before ORDER BY: the LEFT JOINs keep
      every account row, in place, whether or not it has a partner. */
  function FactRows(accounts: seq<Account>, events: seq<ProductEvent>, deals: seq<Deal>): (rows: seq<ActivationFact>)
    ensures |rows| == |accounts|
    ensures forall i :: 0 <= i < |rows| ==>
              rows[i].accountId == accounts[i].accountId && rows[i].createdDate == accounts[i].createdDate &&
              ConsistentFact(rows[i])
  {
    seq(|accounts|, i requires 0 <= i < |accounts| => FactRow(accounts, events, deals, accounts[i]))
  }

  // ---------------------------------------------------------------------------
  // ORDER BY a.AccountId

  predicate SortedByAccountId(rows: seq<ActivationFact>) {
    forall i, j :: 0 <= i < j < |rows| ==> rows[i].accountId <= rows[j].accountId
  }

  /** Putting a row in front of sorted rows whose ids are all at least its own keeps them sorted. */
  lemma SortedCons(r: ActivationFact, rows: seq<ActivationFact>)
    requires SortedByAccountId(rows)
    requires forall k :: 0 <= k < |rows| ==> r.accountId <= rows[k].accountId
    ensures SortedByAccountId([r] + rows)
  {
    var s := [r] + rows;
    forall i, j | 0 <= i < j < |s| ensures s[i].accountId <= s[j].accountId {
      if i > 0 {
        assert s[i] == rows[i - 1] && s[j] == rows[j - 1];
      } else {
        assert s[j] == rows[j - 1];
      }
    }
  }

  function InsertByAccountId(r: ActivationFact, rows: seq<ActivationFact>): (s: seq<ActivationFact>)
    requires SortedByAccountId(rows)
    ensures |s| == |rows| + 1
    ensures multiset(s) == multiset(rows) + multiset{r}
    ensures SortedByAccountId(s)
  {
    if rows == [] || r.accountId <= rows[0].accountId then
      SortedCons(r, rows);
      [r] + rows
    else
      var tail := InsertByAccountId(r, rows[1..]);
      InsertedRowsAreLarger(rows, r, tail);
      SortedCons(rows[0], tail);
      assert rows == [rows[0]] + rows[1..];
      [rows[0]] + tail
  }

  /** The rows after the head of a sorted sequence, plus a row with a larger id, are all at least the head. */
  lemma InsertedRowsAreLarger(rows: seq<ActivationFact>, r: ActivationFact, tail: seq<ActivationFact>)
    requires rows != [] && SortedByAccountId(rows) && rows[0].accountId < r.accountId
    requires multiset(tail) == multiset(rows[1..]) + multiset{r}
    ensures forall k :: 0 <= k < |tail| ==> rows[0].accountId <= tail[k].accountId
  {
    forall k | 0 <= k < |tail| ensures rows[0].accountId <= tail[k].accountId {
      assert tail[k] in multiset(rows[1..]) + multiset{r};
    }
  }

  /** A stable sort of the rows by ascending AccountId. */
  function SortByAccountId(rows: seq<ActivationFact>): (s: seq<ActivationFact>)
    ensures |s| == |rows|
    ensures multiset(s) == multiset(rows)
    ensures SortedByAccountId(s)
  {
    if rows == [] then []
    else
      assert rows == [rows[0]] + rows[1..];
      InsertByAccountId(rows[0], SortByAccountId(rows[1..]))
  }

  /** Each row of a permutation of the per-account rows is some account's row. */
  lemma RowsOfPermutation(accounts: seq<Account>, events: seq<ProductEvent>, deals: seq<Deal>, t: seq<ActivationFact>)
    requires multiset(t) == multiset(FactRows(accounts, events, deals))
    ensures forall r :: r in t ==> exists a :: a in accounts && r == FactRow(accounts, events, deals, a)
  {
    var rows := FactRows(accounts, events, deals);
    forall r | r in t ensures exists a :: a in accounts && r == FactRow(accounts, events, deals, a) {
      assert r in multiset(rows);
      var i :| 0 <= i < |rows| && rows[i] == r;
      assert accounts[i] in accounts;
    }
  }

  /** The whole statement: the contents of gold__fact_advanced_activation. */
  function ActivationTable(accounts: seq<Account>, events: seq<ProductEvent>, deals: seq<Deal>): (t: seq<ActivationFact>)
    ensures |t| == |accounts|
    ensures SortedByAccountId(t)
    ensures multiset(t) == multiset(FactRows(accounts, events, deals))
    ensures forall r :: r in t ==> exists a :: a in accounts && r == FactRow(accounts, events, deals, a)
    ensures forall r :: r in t ==> ConsistentFact(r)
  {
    var t := SortByAccountId(FactRows(accounts, events, deals));
    RowsOfPermutation(accounts, events, deals, t);
    t
  }
}
