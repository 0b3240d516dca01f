/**
  Concrete inputs and the table the statement builds from them. Day 19723 is
  2024-01-01 counted from 1970-01-01.
*/
module ActivationScenarios {
  import opened Options
  import opened Activation

  const Jan1: Date := 19723

  /** Signup on Jan 1, core event on Jan 5, deal on Jan 10: activated on Jan 10 after 9 days. */
  lemma BothSignalsActivate()
    ensures ActivationTable([Account(1, Jan1)], [ProductEvent(1, Jan1 + 4, Some(true))], [Deal(1, Jan1 + 9)])
         == [ActivationFact(1, Jan1, Some(Jan1 + 4), Some(Jan1 + 9), Some(Jan1 + 9), true, Some(9), 1, 1)]
  {
  }

  /** A core event on Jan 20 is outside the window of a Jan 1 signup: no signal, not activated. */
  lemma LateEventIgnored()
    ensures ActivationTable([Account(1, Jan1)], [ProductEvent(1, Jan1 + 19, Some(true))], [Deal(1, Jan1 + 9)])
         == [ActivationFact(1, Jan1, None, Some(Jan1 + 9), None, false, None, 0, 1)]
  {
  }

  /** An account with no events and no deals still gets its row, with counts 0. */
  lemma SilentAccountGetsRow()
    ensures ActivationTable([Account(1, Jan1)], [], [])
         == [ActivationFact(1, Jan1, None, None, None, false, None, 0, 0)]
  {
  }

  lemma WindowBoundsCoreGroup()
    ensures WindowGroup(CoreActivity([ProductEvent(1, Jan1 - 1, Some(true)), ProductEvent(1, Jan1 + 14, Some(true))]),
                        [Account(1, Jan1)], 1) == [Jan1 + 14]
  {
    var accounts := [Account(1, Jan1)];
    var acts := [Activity(1, Jan1 - 1), Activity(1, Jan1 + 14)];
    assert CoreActivity([ProductEvent(1, Jan1 - 1, Some(true)), ProductEvent(1, Jan1 + 14, Some(true))]) == acts;
    assert acts[1..] == [acts[1]];
    assert JoinWindow(acts[0], accounts) == [];
    assert JoinWindow(acts[1], accounts) == [Jan1 + 14];
    assert WindowGroup(acts[1..], accounts, 1) == [Jan1 + 14];
  }

  lemma WindowBoundsDealGroup()
    ensures WindowGroup(DealActivity([Deal(1, Jan1), Deal(1, Jan1 + 15)]), [Account(1, Jan1)], 1) == [Jan1]
  {
    var accounts := [Account(1, Jan1)];
    var dacts := [Activity(1, Jan1), Activity(1, Jan1 + 15)];
    assert DealActivity([Deal(1, Jan1), Deal(1, Jan1 + 15)]) == dacts;
    assert dacts[1..] == [dacts[1]];
    assert JoinWindow(dacts[1], accounts) == [];
    assert WindowGroup(dacts[1..], accounts, 1) == [];
  }

  /** Both ends of the window count; the day before signup and the day after the window do not. */
  lemma WindowBoundsInclusive()
    ensures ActivationTable(
              [Account(1, Jan1)],
              [ProductEvent(1, Jan1 - 1, Some(true)), ProductEvent(1, Jan1 + 14, Some(true))],
              [Deal(1, Jan1), Deal(1, Jan1 + 15)])
         == [ActivationFact(1, Jan1, Some(Jan1 + 14), Some(Jan1), Some(Jan1 + 14), true, Some(14), 1, 1)]
  {
    WindowBoundsCoreGroup();
    WindowBoundsDealGroup();
  }

  /** A HasDealContext that is NULL or FALSE is not core usage. */
  lemma FlagMustBeTrue()
    ensures ActivationTable([Account(1, Jan1)],
                            [ProductEvent(1, Jan1, None), ProductEvent(1, Jan1, Some(false))], [Deal(1, Jan1)])
         == [ActivationFact(1, Jan1, None, Some(Jan1), None, false, None, 0, 1)]
  {
    var events := [ProductEvent(1, Jan1, None), ProductEvent(1, Jan1, Some(false))];
    assert events[1..] == [events[1]];
    assert CoreActivity(events) == [];
  }

  /** Rows come out by ascending AccountId whatever the order of the account table. */
  lemma OrderedByAccountId()
    ensures ActivationTable([Account(2, Jan1), Account(1, Jan1 + 1)], [], [Deal(2, Jan1 + 3)])
         == [ActivationFact(1, Jan1 + 1, None, None, None, false, None, 0, 0),
             ActivationFact(2, Jan1, None, Some(Jan1 + 3), None, false, None, 0, 1)]
  {
    var accounts := [Account(2, Jan1), Account(1, Jan1 + 1)];
    var deals := [Deal(2, Jan1 + 3)];
    var dacts := [Activity(2, Jan1 + 3)];
    assert DealActivity(deals) == dacts;
    assert WindowGroup(dacts, accounts, 2) == [Jan1 + 3];
    assert WindowGroup(dacts, accounts, 1) == [];
    var r2 := ActivationFact(2, Jan1, None, Some(Jan1 + 3), None, false, None, 0, 1);
    var r1 := ActivationFact(1, Jan1 + 1, None, None, None, false, None, 0, 0);
    var rows := FactRows(accounts, [], deals);
    assert rows == [r2, r1];
    assert rows[1..] == [r1];
    assert SortByAccountId(rows[1..]) == [r1];
  }

  /** A duplicated account row joins every event twice: two rows, each counting the one event twice. */
  lemma DuplicateAccountDoublesCounts()
    ensures ActivationTable([Account(1, Jan1), Account(1, Jan1)], [ProductEvent(1, Jan1 + 1, Some(true))], [])
         == [ActivationFact(1, Jan1, Some(Jan1 + 1), None, None, false, None, 2, 0),
             ActivationFact(1, Jan1, Some(Jan1 + 1), None, None, false, None, 2, 0)]
  {
    var accounts := [Account(1, Jan1), Account(1, Jan1)];
    var acts := [Activity(1, Jan1 + 1)];
    assert CoreActivity([ProductEvent(1, Jan1 + 1, Some(true))]) == acts;
    assert accounts[1..][1..] == [];
    assert JoinWindow(acts[0], accounts) == [Jan1 + 1, Jan1 + 1];
    assert WindowGroup(acts, accounts, 1) == [Jan1 + 1, Jan1 + 1];
    var r := ActivationFact(1, Jan1, Some(Jan1 + 1), None, None, false, None, 2, 0);
    var rows := FactRows(accounts, [ProductEvent(1, Jan1 + 1, Some(true))], []);
    assert rows == [r, r];
    assert rows[1..] == [r];
  }

  /** Two account rows with one id but different signup dates share one group, so the earlier
      signup sees signals from the later one's window: 20 days to value. SQL leaves the order of
      the two rows open, so only the set of rows is fixed. */
  lemma DuplicateAccountEscapesWindow()
    ensures multiset(ActivationTable([Account(1, Jan1), Account(1, Jan1 + 10)],
                                     [ProductEvent(1, Jan1 + 20, Some(true))], [Deal(1, Jan1 + 20)]))
         == multiset{
              ActivationFact(1, Jan1, Some(Jan1 + 20), Some(Jan1 + 20), Some(Jan1 + 20), true, Some(20), 1, 1),
              ActivationFact(1, Jan1 + 10, Some(Jan1 + 20), Some(Jan1 + 20), Some(Jan1 + 20), true, Some(10), 1, 1)}
  {
    var accounts := [Account(1, Jan1), Account(1, Jan1 + 10)];
    var act := Activity(1, Jan1 + 20);
    assert CoreActivity([ProductEvent(1, Jan1 + 20, Some(true))]) == [act];
    assert DealActivity([Deal(1, Jan1 + 20)]) == [act];
    assert accounts[1..][1..] == [];
    assert MatchingRows(act, accounts[1..]) == 1;
    assert MatchingRows(act, accounts) == 1;
    assert JoinWindow(act, accounts) == [Jan1 + 20];
    assert WindowGroup([act], accounts, 1) == [Jan1 + 20];
    var r0 := ActivationFact(1, Jan1, Some(Jan1 + 20), Some(Jan1 + 20), Some(Jan1 + 20), true, Some(20), 1, 1);
    var r1 := ActivationFact(1, Jan1 + 10, Some(Jan1 + 20), Some(Jan1 + 20), Some(Jan1 + 20), true, Some(10), 1, 1);
    var rows := FactRows(accounts, [ProductEvent(1, Jan1 + 20, Some(true))], [Deal(1, Jan1 + 20)]);
    assert rows == [r0, r1];
  }
}
