/**
  What the activation statement guarantees about its output, stated against
  per-account reference definitions that do not mention the join.
*/
module ActivationProperties {
  import opened Options
  import opened Activation

  /** No two rows of gold__dim_accounts share an AccountId. */
  predicate UniqueAccountIds(accounts: seq<Account>) {
    forall i, j :: 0 <= i < j < |accounts| ==> accounts[i].accountId != accounts[j].accountId
  }

  predicate StrictlySortedByAccountId(rows: seq<ActivationFact>) {
    forall i, j :: 0 <= i < j < |rows| ==> rows[i].accountId < rows[j].accountId
  }

  // ---------------------------------------------------------------------------
  // Reference definitions: the qualifying rows of one account

  /** The product events that count as core usage for account `a`, in table order. */
  function QualifyingEvents(events: seq<ProductEvent>, a: Account): (q: seq<ProductEvent>)
    ensures |q| <= |events|
    ensures forall e :: e in q <==> e in events && CoreQualifies(e, a)
  {
    if events == [] then []
    else
      assert events == [events[0]] + events[1..];
      (if CoreQualifies(events[0], a) then [events[0]] else []) + QualifyingEvents(events[1..], a)
  }

  /** The deals that count as pipeline activity for account `a`, in table order. */
  function QualifyingDeals(deals: seq<Deal>, a: Account): (q: seq<Deal>)
    ensures |q| <= |deals|
    ensures forall d :: d in q <==> d in deals && DealQualifies(d, a)
  {
    if deals == [] then []
    else
      assert deals == [deals[0]] + deals[1..];
      (if DealQualifies(deals[0], a) then [deals[0]] else []) + QualifyingDeals(deals[1..], a)
  }

  function EventDates(es: seq<ProductEvent>): seq<Date> {
    seq(|es|, i requires 0 <= i < |es| => es[i].eventDate)
  }

  function DealDates(ds: seq<Deal>): seq<Date> {
    seq(|ds|, i requires 0 <= i < |ds| => ds[i].createdDate)
  }

  // ---------------------------------------------------------------------------
  // The join, for an account whose id is unique

  lemma {:induction false} JoinWindowOfUniqueAccount(x: Activity, accounts: seq<Account>, a: Account)
    requires UniqueAccountIds(accounts) && a in accounts && x.accountId == a.accountId
    ensures JoinWindow(x, accounts) == if InWindow(x.date, a) then [x.date] else []
  {
    var k :| 0 <= k < |accounts| && accounts[k] == a;
    var rest := accounts[1..];
    if k == 0 {
      forall b | b in rest ensures b.accountId != a.accountId {
        var j :| 0 <= j < |rest| && rest[j] == b;
        assert accounts[j + 1] == b;
      }
      assert JoinWindow(x, rest) == [];
    } else {
      assert accounts[0].accountId != a.accountId;
      assert rest[k - 1] == a;
      JoinWindowOfUniqueAccount(x, rest, a);
    }
  }

  lemma {:induction false} WindowGroupAppend(xs: seq<Activity>, ys: seq<Activity>, accounts: seq<Account>, id: AccountId)
    ensures WindowGroup(xs + ys, accounts, id) == WindowGroup(xs, accounts, id) + WindowGroup(ys, accounts, id)
  {
    if xs != [] {
      assert (xs + ys)[1..] == xs[1..] + ys;
      WindowGroupAppend(xs[1..], ys, accounts, id);
    } else {
      assert xs + ys == ys;
    }
  }

  lemma {:induction false} CoreActivityAppend(xs: seq<ProductEvent>, ys: seq<ProductEvent>)
    ensures CoreActivity(xs + ys) == CoreActivity(xs) + CoreActivity(ys)
  {
    if xs != [] {
      assert (xs + ys)[1..] == xs[1..] + ys;
      CoreActivityAppend(xs[1..], ys);
    } else {
      assert xs + ys == ys;
    }
  }

  lemma {:induction false} DealActivityAppend(xs: seq<Deal>, ys: seq<Deal>)
    ensures DealActivity(xs + ys) == DealActivity(xs) + DealActivity(ys)
  {
    if xs != [] {
      assert (xs + ys)[1..] == xs[1..] + ys;
      DealActivityAppend(xs[1..], ys);
    } else {
      assert xs + ys == ys;
    }
  }

  lemma CoreHeadGroup(e: ProductEvent, accounts: seq<Account>, a: Account)
    requires UniqueAccountIds(accounts) && a in accounts
    ensures WindowGroup(CoreActivity([e]), accounts, a.accountId) == if CoreQualifies(e, a) then [e.eventDate] else []
  {
    assert [e][1..] == [];
    if IsCoreEvent(e) && e.accountId == a.accountId {
      var x := Activity(e.accountId, e.eventDate);
      assert CoreActivity([e]) == [x];
      assert [x][1..] == [];
      JoinWindowOfUniqueAccount(x, accounts, a);
    }
  }

  lemma DealHeadGroup(d: Deal, accounts: seq<Account>, a: Account)
    requires UniqueAccountIds(accounts) && a in accounts
    ensures WindowGroup(DealActivity([d]), accounts, a.accountId) == if DealQualifies(d, a) then [d.createdDate] else []
  {
    var x := Activity(d.accountId, d.createdDate);
    assert DealActivity([d]) == [x];
    assert [x][1..] == [];
    if d.accountId == a.accountId {
      JoinWindowOfUniqueAccount(x, accounts, a);
    }
  }

  lemma EventDatesAppend(xs: seq<ProductEvent>, ys: seq<ProductEvent>)
    ensures EventDates(xs + ys) == EventDates(xs) + EventDates(ys)
  {
  }

  lemma DealDatesAppend(xs: seq<Deal>, ys: seq<Deal>)
    ensures DealDates(xs + ys) == DealDates(xs) + DealDates(ys)
  {
  }

  /** With unique ids, the core_events group of `a` holds exactly the dates of `a`'s qualifying events. */
  lemma {:induction false} CoreGroupOfUniqueAccount(accounts: seq<Account>, events: seq<ProductEvent>, a: Account)
    requires UniqueAccountIds(accounts) && a in accounts
    ensures WindowGroup(CoreActivity(events), accounts, a.accountId) == EventDates(QualifyingEvents(events, a))
  {
    if events != [] {
      var e, rest := events[0], events[1..];
      var q := if CoreQualifies(e, a) then [e] else [];
      calc {
        WindowGroup(CoreActivity(events), accounts, a.accountId);
        { assert events == [e] + rest; CoreActivityAppend([e], rest); }
        WindowGroup(CoreActivity([e]) + CoreActivity(rest), accounts, a.accountId);
        { WindowGroupAppend(CoreActivity([e]), CoreActivity(rest), accounts, a.accountId); }
        WindowGroup(CoreActivity([e]), accounts, a.accountId) + WindowGroup(CoreActivity(rest), accounts, a.accountId);
        { CoreHeadGroup(e, accounts, a); CoreGroupOfUniqueAccount(accounts, rest, a); }
        EventDates(q) + EventDates(QualifyingEvents(rest, a));
        { EventDatesAppend(q, QualifyingEvents(rest, a)); }
        EventDates(q + QualifyingEvents(rest, a));
      }
    }
  }

  /** With unique ids, the deals group of `a` holds exactly the dates of `a`'s qualifying deals. */
  lemma {:induction false} DealGroupOfUniqueAccount(accounts: seq<Account>, deals: seq<Deal>, a: Account)
    requires UniqueAccountIds(accounts) && a in accounts
    ensures WindowGroup(DealActivity(deals), accounts, a.accountId) == DealDates(QualifyingDeals(deals, a))
  {
    if deals != [] {
      var d, rest := deals[0], deals[1..];
      var q := if DealQualifies(d, a) then [d] else [];
      calc {
        WindowGroup(DealActivity(deals), accounts, a.accountId);
        { assert deals == [d] + rest; DealActivityAppend([d], rest); }
        WindowGroup(DealActivity([d]) + DealActivity(rest), accounts, a.accountId);
        { WindowGroupAppend(DealActivity([d]), DealActivity(rest), accounts, a.accountId); }
        WindowGroup(DealActivity([d]), accounts, a.accountId) + WindowGroup(DealActivity(rest), accounts, a.accountId);
        { DealHeadGroup(d, accounts, a); DealGroupOfUniqueAccount(accounts, rest, a); }
        DealDates(q) + DealDates(QualifyingDeals(rest, a));
        { DealDatesAppend(q, QualifyingDeals(rest, a)); }
        DealDates(q + QualifyingDeals(rest, a));
      }
    }
  }

  // ---------------------------------------------------------------------------
  // The signal columns of one account

  /** FirstCoreEventDate is the earliest qualifying event of the account, absent exactly when there is
      none, and CoreEventsInFirst14Days is the number of qualifying events. */
  lemma CoreColumnsOfAccount(accounts: seq<Account>, events: seq<ProductEvent>, deals: seq<Deal>, a: Account)
    requires UniqueAccountIds(accounts) && a in accounts
    ensures var f := FactRow(accounts, events, deals, a);
      && (f.firstCoreEventDate.Some? <==> exists e :: e in events && CoreQualifies(e, a))
      && (f.firstCoreEventDate.Some? ==>
            exists e :: e in events && CoreQualifies(e, a) && e.eventDate == f.firstCoreEventDate.value)
      && (forall e :: e in events && CoreQualifies(e, a) ==>
            f.firstCoreEventDate.Some? && f.firstCoreEventDate.value <= e.eventDate)
      && f.coreEventsInFirst14Days == |QualifyingEvents(events, a)|
  {
    var q := QualifyingEvents(events, a);
    CoreGroupOfUniqueAccount(accounts, events, a);
    forall d | d in EventDates(q) ensures exists e :: e in q && e.eventDate == d {
      var i :| 0 <= i < |q| && EventDates(q)[i] == d;
      assert q[i] in q;
    }
    forall e | e in q ensures e.eventDate in EventDates(q) {
      var i :| 0 <= i < |q| && q[i] == e;
      assert EventDates(q)[i] == e.eventDate;
    }
  }

  /** FirstDealDate is the earliest qualifying deal of the account, absent exactly when there is
      none, and DealsInFirst14Days is the number of qualifying deals. */
  lemma DealColumnsOfAccount(accounts: seq<Account>, events: seq<ProductEvent>, deals: seq<Deal>, a: Account)
    requires UniqueAccountIds(accounts) && a in accounts
    ensures var f := FactRow(accounts, events, deals, a);
      && (f.firstDealDate.Some? <==> exists d :: d in deals && DealQualifies(d, a))
      && (f.firstDealDate.Some? ==>
            exists d :: d in deals && DealQualifies(d, a) && d.createdDate == f.firstDealDate.value)
      && (forall d :: d in deals && DealQualifies(d, a) ==>
            f.firstDealDate.Some? && f.firstDealDate.value <= d.createdDate)
      && f.dealsInFirst14Days == |QualifyingDeals(deals, a)|
  {
    var q := QualifyingDeals(deals, a);
    DealGroupOfUniqueAccount(accounts, deals, a);
    forall x | x in DealDates(q) ensures exists d :: d in q && d.createdDate == x {
      var i :| 0 <= i < |q| && DealDates(q)[i] == x;
      assert q[i] in q;
    }
    forall d | d in q ensures d.createdDate in DealDates(q) {
      var i :| 0 <= i < |q| && q[i] == d;
      assert DealDates(q)[i] == d.createdDate;
    }
  }

  /** QualifyingEvents keeps every qualifying event as often as the table holds it, and nothing else,
      so its length is the number of qualifying event rows. */
  lemma {:induction false} QualifyingEventsMultiplicity(events: seq<ProductEvent>, a: Account, e: ProductEvent)
    ensures multiset(QualifyingEvents(events, a))[e] == if CoreQualifies(e, a) then multiset(events)[e] else 0
  {
    if events != [] {
      assert events == [events[0]] + events[1..];
      QualifyingEventsMultiplicity(events[1..], a, e);
    }
  }

  /** QualifyingDeals keeps every qualifying deal as often as the table holds it, and nothing else. */
  lemma {:induction false} QualifyingDealsMultiplicity(deals: seq<Deal>, a: Account, d: Deal)
    ensures multiset(QualifyingDeals(deals, a))[d] == if DealQualifies(d, a) then multiset(deals)[d] else 0
  {
    if deals != [] {
      assert deals == [deals[0]] + deals[1..];
      QualifyingDealsMultiplicity(deals[1..], a, d);
    }
  }

  // ---------------------------------------------------------------------------
  // Shape of the table

  lemma StrictCons(r: ActivationFact, rows: seq<ActivationFact>)
    requires StrictlySortedByAccountId(rows)
    requires forall k :: 0 <= k < |rows| ==> r.accountId < rows[k].accountId
    ensures StrictlySortedByAccountId([r] + rows)
  {
    var s := [r] + rows;
    forall i, j | 0 <= i < j < |s| ensures s[i].accountId < s[j].accountId {
      assert s[j] == rows[j - 1];
      if i > 0 { assert s[i] == rows[i - 1]; }
    }
  }

  lemma {:induction false} InsertKeepsStrictOrder(r: ActivationFact, rows: seq<ActivationFact>)
    requires StrictlySortedByAccountId(rows)
    requires forall k :: 0 <= k < |rows| ==> rows[k].accountId != r.accountId
    ensures StrictlySortedByAccountId(InsertByAccountId(r, rows))
  {
    if rows == [] || r.accountId <= rows[0].accountId {
      StrictCons(r, rows);
    } else {
      var tail := InsertByAccountId(r, rows[1..]);
      InsertKeepsStrictOrder(r, rows[1..]);
      forall k | 0 <= k < |tail| ensures rows[0].accountId < tail[k].accountId {
        assert tail[k] in multiset(rows[1..]) + multiset{r};
      }
      StrictCons(rows[0], tail);
    }
  }

  /** Sorting rows whose ids are pairwise distinct yields strictly ascending ids. */
  lemma {:induction false} SortOfDistinctIsStrict(rows: seq<ActivationFact>)
    requires forall i, j :: 0 <= i < j < |rows| ==> rows[i].accountId != rows[j].accountId
    ensures StrictlySortedByAccountId(SortByAccountId(rows))
  {
    if rows != [] {
      var rest := SortByAccountId(rows[1..]);
      SortOfDistinctIsStrict(rows[1..]);
      forall k | 0 <= k < |rest| ensures rest[k].accountId != rows[0].accountId {
        assert rest[k] in multiset(rows[1..]);
        var j :| 0 <= j < |rows[1..]| && rows[1..][j] == rest[k];
        assert rows[j + 1] == rest[k];
      }
      InsertKeepsStrictOrder(rows[0], rest);
    }
  }

  lemma EveryAccountHasRow(accounts: seq<Account>, events: seq<ProductEvent>, deals: seq<Deal>, a: Account)
    requires a in accounts
    ensures var t := ActivationTable(accounts, events, deals);
      exists i :: 0 <= i < |t| && t[i] == FactRow(accounts, events, deals, a)
  {
    var t := ActivationTable(accounts, events, deals);
    var rows := FactRows(accounts, events, deals);
    var k :| 0 <= k < |accounts| && accounts[k] == a;
    assert rows[k] in multiset(t);
  }

  lemma RowOfAccountId(accounts: seq<Account>, events: seq<ProductEvent>, deals: seq<Deal>, r: ActivationFact, a: Account)
    requires UniqueAccountIds(accounts) && a in accounts
    requires r in ActivationTable(accounts, events, deals) && r.accountId == a.accountId
    ensures r == FactRow(accounts, events, deals, a)
  {
    var b :| b in accounts && r == FactRow(accounts, events, deals, b);
    var kb :| 0 <= kb < |accounts| && accounts[kb] == b;
    var ka :| 0 <= ka < |accounts| && accounts[ka] == a;
    assert kb == ka;
  }

  /** With unique AccountIds, every account yields exactly one row: the output has one row per
      account, ids strictly ascend, each account's row is in it, and the row carrying an
      account's id is that account's row (same AccountId and CreatedDate). */
  lemma OneRowPerAccount(accounts: seq<Account>, events: seq<ProductEvent>, deals: seq<Deal>)
    requires UniqueAccountIds(accounts)
    ensures var t := ActivationTable(accounts, events, deals);
      && |t| == |accounts|
      && StrictlySortedByAccountId(t)
      && (forall a :: a in accounts ==> exists i :: 0 <= i < |t| && t[i] == FactRow(accounts, events, deals, a))
      && (forall i, a :: 0 <= i < |t| && a in accounts && t[i].accountId == a.accountId ==>
            t[i] == FactRow(accounts, events, deals, a) && t[i].createdDate == a.createdDate)
  {
    var t := ActivationTable(accounts, events, deals);
    SortOfDistinctIsStrict(FactRows(accounts, events, deals));
    forall a | a in accounts ensures exists i :: 0 <= i < |t| && t[i] == FactRow(accounts, events, deals, a) {
      EveryAccountHasRow(accounts, events, deals, a);
    }
    forall i, a | 0 <= i < |t| && a in accounts && t[i].accountId == a.accountId
      ensures t[i] == FactRow(accounts, events, deals, a)
    {
      RowOfAccountId(accounts, events, deals, t[i], a);
    }
  }

  /** A consistent row whose first dates are present exactly when `a` has a qualifying event, respectively
      deal, and are then dates of such rows, is activated exactly when both exist, and inside `a`'s window. */
  lemma ActivationFromColumns(f: ActivationFact, a: Account, events: seq<ProductEvent>, deals: seq<Deal>)
    requires ConsistentFact(f) && f.createdDate == a.createdDate
    requires f.firstCoreEventDate.Some? <==> exists e :: e in events && CoreQualifies(e, a)
    requires f.firstCoreEventDate.Some? ==>
               exists e :: e in events && CoreQualifies(e, a) && e.eventDate == f.firstCoreEventDate.value
    requires f.firstDealDate.Some? <==> exists d :: d in deals && DealQualifies(d, a)
    requires f.firstDealDate.Some? ==>
               exists d :: d in deals && DealQualifies(d, a) && d.createdDate == f.firstDealDate.value
    ensures f.isActivated <==>
              (exists e :: e in events && CoreQualifies(e, a)) && (exists d :: d in deals && DealQualifies(d, a))
    ensures f.isActivated ==>
              f.activationDate.Some? && InWindow(f.activationDate.value, a) &&
              f.timeToValueDays.Some? && f.timeToValueDays.value == f.activationDate.value - a.createdDate
  {
  }

  /** With a unique AccountId, an account is activated exactly when it has both a qualifying product
      event and a qualifying deal, and then it is activated inside its own window. */
  lemma ActivationOfAccount(accounts: seq<Account>, events: seq<ProductEvent>, deals: seq<Deal>, a: Account)
    requires UniqueAccountIds(accounts) && a in accounts
    ensures var f := FactRow(accounts, events, deals, a);
      && (f.isActivated <==>
            (exists e :: e in events && CoreQualifies(e, a)) && (exists d :: d in deals && DealQualifies(d, a)))
      && (f.isActivated ==>
            f.activationDate.Some? && InWindow(f.activationDate.value, a) &&
            f.timeToValueDays.Some? && f.timeToValueDays.value == f.activationDate.value - a.createdDate)
  {
    CoreColumnsOfAccount(accounts, events, deals, a);
    DealColumnsOfAccount(accounts, events, deals, a);
    ActivationFromColumns(FactRow(accounts, events, deals, a), a, events, deals);
  }

  /** With unique AccountIds, an activated account's ActivationDate lies in its window,
      so TimeToValueDays is between 0 and 14. */
  lemma TimeToValueWithinWindow(accounts: seq<Account>, events: seq<ProductEvent>, deals: seq<Deal>)
    requires UniqueAccountIds(accounts)
    ensures forall r :: r in ActivationTable(accounts, events, deals) && r.isActivated ==>
              r.activationDate.Some? && r.timeToValueDays.Some? &&
              0 <= r.timeToValueDays.value <= WindowDays
  {
    var t := ActivationTable(accounts, events, deals);
    forall r | r in t && r.isActivated
      ensures r.activationDate.Some? && r.timeToValueDays.Some? && 0 <= r.timeToValueDays.value <= WindowDays
    {
      var a :| a in accounts && r == FactRow(accounts, events, deals, a);
      ActivationOfAccount(accounts, events, deals, a);
    }
  }

  // ---------------------------------------------------------------------------
  // Rows that fail the filters have no effect

  lemma WindowGroupOfIgnoredEvent(e: ProductEvent, accounts: seq<Account>, id: AccountId)
    requires forall a :: a in accounts ==> !CoreQualifies(e, a)
    ensures WindowGroup(CoreActivity([e]), accounts, id) == []
  {
    assert [e][1..] == [];
  }

  lemma WindowGroupOfIgnoredDeal(d: Deal, accounts: seq<Account>, id: AccountId)
    requires forall a :: a in accounts ==> !DealQualifies(d, a)
    ensures WindowGroup(DealActivity([d]), accounts, id) == []
  {
    assert [d][1..] == [];
  }

  lemma CoreGroupIgnoresEvent(accounts: seq<Account>, before: seq<ProductEvent>, e: ProductEvent,
                              after: seq<ProductEvent>, id: AccountId)
    requires forall a :: a in accounts ==> !CoreQualifies(e, a)
    ensures WindowGroup(CoreActivity(before + [e] + after), accounts, id) ==
            WindowGroup(CoreActivity(before + after), accounts, id)
  {
    CoreActivityAppend(before + [e], after);
    CoreActivityAppend(before, [e]);
    CoreActivityAppend(before, after);
    WindowGroupOfIgnoredEvent(e, accounts, id);
    WindowGroupAppend(CoreActivity(before) + CoreActivity([e]), CoreActivity(after), accounts, id);
    WindowGroupAppend(CoreActivity(before), CoreActivity([e]), accounts, id);
    WindowGroupAppend(CoreActivity(before), CoreActivity(after), accounts, id);
  }

  lemma DealGroupIgnoresDeal(accounts: seq<Account>, before: seq<Deal>, d: Deal, after: seq<Deal>, id: AccountId)
    requires forall a :: a in accounts ==> !DealQualifies(d, a)
    ensures WindowGroup(DealActivity(before + [d] + after), accounts, id) ==
            WindowGroup(DealActivity(before + after), accounts, id)
  {
    DealActivityAppend(before + [d], after);
    DealActivityAppend(before, [d]);
    DealActivityAppend(before, after);
    WindowGroupOfIgnoredDeal(d, accounts, id);
    WindowGroupAppend(DealActivity(before) + DealActivity([d]), DealActivity(after), accounts, id);
    WindowGroupAppend(DealActivity(before), DealActivity([d]), accounts, id);
    WindowGroupAppend(DealActivity(before), DealActivity(after), accounts, id);
  }

  /** A product event that qualifies for no account row (flag not TRUE, date outside every window of
      its account, or no such account) changes no output column. */
  lemma NonQualifyingEventIgnored(accounts: seq<Account>, before: seq<ProductEvent>, e: ProductEvent,
                                  after: seq<ProductEvent>, deals: seq<Deal>)
    requires forall a :: a in accounts ==> !CoreQualifies(e, a)
    ensures ActivationTable(accounts, before + [e] + after, deals) == ActivationTable(accounts, before + after, deals)
  {
    var with := FactRows(accounts, before + [e] + after, deals);
    var without := FactRows(accounts, before + after, deals);
    forall i | 0 <= i < |accounts| ensures with[i] == without[i] {
      CoreGroupIgnoresEvent(accounts, before, e, after, accounts[i].accountId);
    }
    assert with == without;
  }

  /** A deal that qualifies for no account row changes no output column. */
  lemma NonQualifyingDealIgnored(accounts: seq<Account>, events: seq<ProductEvent>, before: seq<Deal>, d: Deal,
                                 after: seq<Deal>)
    requires forall a :: a in accounts ==> !DealQualifies(d, a)
    ensures ActivationTable(accounts, events, before + [d] + after) == ActivationTable(accounts, events, before + after)
  {
    var with := FactRows(accounts, events, before + [d] + after);
    var without := FactRows(accounts, events, before + after);
    forall i | 0 <= i < |accounts| ensures with[i] == without[i] {
      DealGroupIgnoresDeal(accounts, before, d, after, accounts[i].accountId);
    }
    assert with == without;
  }
}
