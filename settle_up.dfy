/**
  `calcSettlements` end to end for one currency: the balances are netted, split
  into debtors and creditors, each list is sorted largest first, and the two
  are matched greedily. `Settlements` is the value the function returns and
  `CalcSettlements` the imperative pipeline proved to return it; the lemmas
  state what the result means in terms of each participant's net balance
  (`Net`, paid minus owed).
 */
module SettleUp {
  import opened LedgerTypes
  import opened Netting
  import opened Partition
  import opened Sorting
  import opened Matching

  /** The debtors as the matching loop receives them, largest debt first. */
  function SortedDebtors(expenses: seq<Expense>, members: seq<Member>, currency: Currency): seq<Entry>
  {
    SortDesc(Debtors(Balances(expenses, members, currency)))
  }

  /** The creditors as the matching loop receives them, largest credit first. */
  function SortedCreditors(expenses: seq<Expense>, members: seq<Member>, currency: Currency): seq<Entry>
  {
    SortDesc(Creditors(Balances(expenses, members, currency)))
  }

  /** Every transfer the loop makes for `currency`, recorded or not. */
  function Transfers(expenses: seq<Expense>, members: seq<Member>, currency: Currency): seq<Transfer>
  {
    Greedy(SortedDebtors(expenses, members, currency), SortedCreditors(expenses, members, currency))
  }

  /** What `calcSettlements(expenses, members, currency)` returns. */
  function Settlements(expenses: seq<Expense>, members: seq<Member>, currency: Currency): (r: seq<Settlement>)
    ensures |r| <= |SortedDebtors(expenses, members, currency)| + |SortedCreditors(expenses, members, currency)|
  {
    RecordedFacts(Transfers(expenses, members, currency), members);
    Recorded(Transfers(expenses, members, currency), members)
  }

  /** `calcSettlements`: net the balances, split them, sort both lists in place
      and run the matching loop. */
  method CalcSettlements(expenses: seq<Expense>, members: seq<Member>, currency: Currency)
    returns (settlements: seq<Settlement>)
    ensures settlements == Settlements(expenses, members, currency)
  {
    var bal := ComputeBalances(expenses, members, currency);
    var ds, cs := Split(bal);
    var debtors := new Entry[|ds|](i requires 0 <= i < |ds| => ds[i]);
    var creditors := new Entry[|cs|](i requires 0 <= i < |cs| => cs[i]);
    assert debtors[..] == ds;
    assert creditors[..] == cs;
    SortInPlace(debtors);
    SortInPlace(creditors);
    ghost var dEnd, cEnd;
    settlements, dEnd, cEnd := MatchGreedy(debtors, creditors, members);
  }

  // ---------------------------------------------------------------------------
  // The two lists

  /** A balance row is a party's net balance; an id without a row has none. */
  lemma BalanceRow(expenses: seq<Expense>, members: seq<Member>, currency: Currency, x: UserId, v: int)
    ensures Entry(x, v) in Balances(expenses, members, currency) <==>
      x in MemberIds(members) + InvolvedIds(expenses, currency) && Net(expenses, currency, x) == v
    ensures x !in MemberIds(members) + InvolvedIds(expenses, currency) ==> Net(expenses, currency, x) == 0
  {
    var bal := Balances(expenses, members, currency);
    BalanceKeys(expenses, members, currency);
    GetMeans(bal, x, v);
    BalanceIsNet(expenses, members, currency, x);
  }

  lemma DebtorRow(expenses: seq<Expense>, members: seq<Member>, currency: Currency, d: Entry)
    ensures d in SortedDebtors(expenses, members, currency) <==>
      Net(expenses, currency, d.id) < -1 && d.amount == -Net(expenses, currency, d.id)
  {
    var bal := Balances(expenses, members, currency);
    SortedDebtorRow(bal, d);
    assert d.amount > 1 && Entry(d.id, -d.amount) in bal <==>
      Net(expenses, currency, d.id) < -1 && d.amount == -Net(expenses, currency, d.id) by {
      BalanceRow(expenses, members, currency, d.id, -d.amount);
    }
  }

  // The next three restate `SortDescIds`, `DebtorsExactly` and
  // `CreditorsExactly` for a single row: without their quantifiers in scope
  // the row lemmas below stay cheap for the solver.

  lemma SortDescMember(s: seq<Entry>, e: Entry)
    ensures e in SortDesc(s) <==> e in s
  {
    SortDescIds(s);
  }

  lemma DebtorMember(bal: seq<Entry>, d: Entry)
    ensures d in Debtors(bal) <==> d.amount > 1 && Entry(d.id, -d.amount) in bal
  {
    DebtorsExactly(bal);
  }

  lemma CreditorMember(bal: seq<Entry>, c: Entry)
    ensures c in Creditors(bal) <==> c.amount > 1 && c in bal
  {
    CreditorsExactly(bal);
  }

  /** A row of the sorted debtor list is a balance row below -1 cent, negated. */
  lemma SortedDebtorRow(bal: seq<Entry>, d: Entry)
    ensures d in SortDesc(Debtors(bal)) <==> d.amount > 1 && Entry(d.id, -d.amount) in bal
  {
    SortDescMember(Debtors(bal), d);
    DebtorMember(bal, d);
  }

  /** A row of the sorted creditor list is a balance row above 1 cent. */
  lemma SortedCreditorRow(bal: seq<Entry>, c: Entry)
    ensures c in SortDesc(Creditors(bal)) <==> c.amount > 1 && c in bal
  {
    SortDescMember(Creditors(bal), c);
    CreditorMember(bal, c);
  }

  lemma CreditorRow(expenses: seq<Expense>, members: seq<Member>, currency: Currency, c: Entry)
    ensures c in SortedCreditors(expenses, members, currency) <==>
      Net(expenses, currency, c.id) > 1 && c.amount == Net(expenses, currency, c.id)
  {
    var bal := Balances(expenses, members, currency);
    SortedCreditorRow(bal, c);
    assert c.amount > 1 && c in bal <==>
      Net(expenses, currency, c.id) > 1 && c.amount == Net(expenses, currency, c.id) by {
      BalanceRow(expenses, members, currency, c.id, c.amount);
    }
  }

  /** The debtors are exactly the participants whose net balance is below
      -1 cent, each listed with the debt it owes. */
  lemma DebtorsAre(expenses: seq<Expense>, members: seq<Member>, currency: Currency)
    ensures forall d :: d in SortedDebtors(expenses, members, currency) <==>
      Net(expenses, currency, d.id) < -1 && d.amount == -Net(expenses, currency, d.id)
  {
    forall d ensures d in SortedDebtors(expenses, members, currency) <==>
      Net(expenses, currency, d.id) < -1 && d.amount == -Net(expenses, currency, d.id)
    {
      DebtorRow(expenses, members, currency, d);
    }
  }

  /** The creditors are exactly the participants whose net balance is above
      +1 cent, each listed with the credit it is owed. */
  lemma CreditorsAre(expenses: seq<Expense>, members: seq<Member>, currency: Currency)
    ensures forall c :: c in SortedCreditors(expenses, members, currency) <==>
      Net(expenses, currency, c.id) > 1 && c.amount == Net(expenses, currency, c.id)
  {
    forall c ensures c in SortedCreditors(expenses, members, currency) <==>
      Net(expenses, currency, c.id) > 1 && c.amount == Net(expenses, currency, c.id)
    {
      CreditorRow(expenses, members, currency, c);
    }
  }

  /** Neither list repeats an id, no id is in both, and a participant within
      one cent of zero is in neither. */
  lemma Partitioned(expenses: seq<Expense>, members: seq<Member>, currency: Currency)
    ensures DistinctIds(SortedDebtors(expenses, members, currency))
    ensures DistinctIds(SortedCreditors(expenses, members, currency))
    ensures Ids(SortedDebtors(expenses, members, currency)) !! Ids(SortedCreditors(expenses, members, currency))
    ensures forall x :: -1 <= Net(expenses, currency, x) <= 1 ==>
      x !in Ids(SortedDebtors(expenses, members, currency)) && x !in Ids(SortedCreditors(expenses, members, currency))
  {
    var bal := Balances(expenses, members, currency);
    BalanceKeys(expenses, members, currency);
    PartitionDisjoint(bal);
    SortDescIds(Debtors(bal));
    SortDescIds(Creditors(bal));
    DebtorsAre(expenses, members, currency);
    CreditorsAre(expenses, members, currency);
  }

  /** Both lists enter the loop in non-increasing order of amount, holding the
      same rows as before sorting. */
  lemma SortedForMatching(expenses: seq<Expense>, members: seq<Member>, currency: Currency)
    ensures SortedDesc(SortedDebtors(expenses, members, currency))
    ensures SortedDesc(SortedCreditors(expenses, members, currency))
    ensures multiset(SortedDebtors(expenses, members, currency)) == multiset(Debtors(Balances(expenses, members, currency)))
    ensures multiset(SortedCreditors(expenses, members, currency)) == multiset(Creditors(Balances(expenses, members, currency)))
  {
    var bal := Balances(expenses, members, currency);
    SortDescSorted(Debtors(bal));
    SortDescSorted(Creditors(bal));
    SortDescPermutation(Debtors(bal));
    SortDescPermutation(Creditors(bal));
  }

  lemma ListsPositive(expenses: seq<Expense>, members: seq<Member>, currency: Currency)
    ensures Positive(SortedDebtors(expenses, members, currency))
    ensures Positive(SortedCreditors(expenses, members, currency))
  {
    var sd, sc := SortedDebtors(expenses, members, currency), SortedCreditors(expenses, members, currency);
    DebtorsAre(expenses, members, currency);
    CreditorsAre(expenses, members, currency);
    assert forall i :: 0 <= i < |sd| ==> sd[i] in sd;
    assert forall i :: 0 <= i < |sc| ==> sc[i] in sc;
  }

  // ---------------------------------------------------------------------------
  // The settlements

  /** Each listed settlement is above one cent, runs from a participant with a
      net debt to one with a net credit, is no larger than either's balance, and
      names both parties as the member list does. */
  lemma SettlementShape(expenses: seq<Expense>, members: seq<Member>, currency: Currency)
    ensures forall s :: s in Settlements(expenses, members, currency) ==>
      s.amount > 1
      && Net(expenses, currency, s.from) < -1 && s.amount <= -Net(expenses, currency, s.from)
      && Net(expenses, currency, s.to) > 1 && s.amount <= Net(expenses, currency, s.to)
      && s.fromName == NameOf(members, s.from) && s.toName == NameOf(members, s.to)
  {
    var sd, sc := SortedDebtors(expenses, members, currency), SortedCreditors(expenses, members, currency);
    var ts := Greedy(sd, sc);
    DebtorsAre(expenses, members, currency);
    CreditorsAre(expenses, members, currency);
    Partitioned(expenses, members, currency);
    ListsPositive(expenses, members, currency);
    RecordedFacts(ts, members);
    GreedyEndpoints(sd, sc);
    GreedyAmounts(sd, sc);
    forall s | s in Settlements(expenses, members, currency)
      ensures Net(expenses, currency, s.from) < -1 && s.amount <= -Net(expenses, currency, s.from)
      ensures Net(expenses, currency, s.to) > 1 && s.amount <= Net(expenses, currency, s.to)
    {
      var t := Transfer(s.from, s.to, s.amount);
      TransferWithinTotal(ts, t);
      var d :| d in sd && d.id == s.from;
      var i :| 0 <= i < |sd| && sd[i] == d;
      DebtorAccounts(sd, sc, i);
      var c :| c in sc && c.id == s.to;
      var j :| 0 <= j < |sc| && sc[j] == c;
      CreditorAccounts(sd, sc, j);
    }
  }

  /** Each round settles at least one side, so with `n` debtors and `m`
      creditors there are at most `n + m - 1` transfers, and none when either
      list is empty; only some of them are listed. */
  lemma SettlementCount(expenses: seq<Expense>, members: seq<Member>, currency: Currency)
    ensures |Settlements(expenses, members, currency)| <= |Transfers(expenses, members, currency)|
    ensures SortedDebtors(expenses, members, currency) == [] || SortedCreditors(expenses, members, currency) == []
      ==> Settlements(expenses, members, currency) == []
    ensures SortedDebtors(expenses, members, currency) != [] && SortedCreditors(expenses, members, currency) != []
      ==> |Transfers(expenses, members, currency)|
          <= |SortedDebtors(expenses, members, currency)| + |SortedCreditors(expenses, members, currency)| - 1
  {
    GreedyCount(SortedDebtors(expenses, members, currency), SortedCreditors(expenses, members, currency));
    RecordedFacts(Transfers(expenses, members, currency), members);
  }

  /** Nobody pays more than their debt or receives more than their credit, and
      nobody outside the two lists pays or receives anything. When the debts do
      not exceed the credits every debtor pays in full; when the credits do not
      exceed the debts every creditor is paid in full. */
  lemma SettlementAccounts(expenses: seq<Expense>, members: seq<Member>, currency: Currency, x: UserId)
    ensures PaidBy(Transfers(expenses, members, currency), x)
      <= if Net(expenses, currency, x) < -1 then -Net(expenses, currency, x) else 0
    ensures ReceivedBy(Transfers(expenses, members, currency), x)
      <= if Net(expenses, currency, x) > 1 then Net(expenses, currency, x) else 0
    ensures Sum(SortedDebtors(expenses, members, currency)) <= Sum(SortedCreditors(expenses, members, currency))
      && Net(expenses, currency, x) < -1
      ==> PaidBy(Transfers(expenses, members, currency), x) == -Net(expenses, currency, x)
    ensures Sum(SortedCreditors(expenses, members, currency)) <= Sum(SortedDebtors(expenses, members, currency))
      && Net(expenses, currency, x) > 1
      ==> ReceivedBy(Transfers(expenses, members, currency), x) == Net(expenses, currency, x)
  {
    var sd, sc := SortedDebtors(expenses, members, currency), SortedCreditors(expenses, members, currency);
    var ts := Greedy(sd, sc);
    var net := Net(expenses, currency, x);
    DebtorsAre(expenses, members, currency);
    CreditorsAre(expenses, members, currency);
    Partitioned(expenses, members, currency);
    ListsPositive(expenses, members, currency);
    GreedyEndpoints(sd, sc);
    if net < -1 {
      assert Entry(x, -net) in sd;
      var i :| 0 <= i < |sd| && sd[i] == Entry(x, -net);
      DebtorAccounts(sd, sc, i);
    } else {
      assert x !in Ids(sd);
      PaidByAbsent(ts, x);
    }
    if net > 1 {
      assert Entry(x, net) in sc;
      var j :| 0 <= j < |sc| && sc[j] == Entry(x, net);
      CreditorAccounts(sd, sc, j);
    } else {
      assert x !in Ids(sc);
      ReceivedByAbsent(ts, x);
    }
  }

  /** When total debt equals total credit, the loop ends with both lists used up. */
  lemma BalancedLedgerExhausts(expenses: seq<Expense>, members: seq<Member>, currency: Currency)
    requires Sum(SortedDebtors(expenses, members, currency)) == Sum(SortedCreditors(expenses, members, currency))
    ensures Leftover(SortedDebtors(expenses, members, currency), SortedCreditors(expenses, members, currency)) == ([], [])
  {
    ListsPositive(expenses, members, currency);
    BalancedRunExhausts(SortedDebtors(expenses, members, currency), SortedCreditors(expenses, members, currency));
  }

  /** When every expense's shares add up to its total, debts and credits
      differ by exactly what the balances inside the one-cent band hold, which
      is at most one cent per such balance. */
  lemma CoveredLedgerNearlyBalanced(expenses: seq<Expense>, members: seq<Member>, currency: Currency)
    requires forall e :: e in expenses && e.currency == currency ==> ShareTotal(e.shares) == e.totalAmount
    ensures var bal := Balances(expenses, members, currency);
      Sum(SortedDebtors(expenses, members, currency)) - Sum(SortedCreditors(expenses, members, currency))
      == Sum(Band(bal))
    ensures var bal := Balances(expenses, members, currency);
      -|Band(bal)| <= Sum(SortedDebtors(expenses, members, currency)) - Sum(SortedCreditors(expenses, members, currency))
      <= |Band(bal)|
  {
    var bal := Balances(expenses, members, currency);
    ConservationWhenCovered(expenses, members, currency);
    PartitionSum(bal);
    SortDescPermutation(Debtors(bal));
    SortDescPermutation(Creditors(bal));
    BandSumBound(bal);
  }

  // ---------------------------------------------------------------------------
  // Currencies are settled independently

  /** Only the expenses in the requested currency matter. */
  lemma OnlyItsCurrency(expenses: seq<Expense>, members: seq<Member>, currency: Currency)
    ensures Settlements(OfCurrency(expenses, currency), members, currency) == Settlements(expenses, members, currency)
  {
    OnlyOwnCurrencyCounts(expenses, members, currency);
  }

  /** Logging an expense in another currency changes nothing. */
  lemma OtherCurrencyNoEffect(expenses: seq<Expense>, members: seq<Member>, currency: Currency, e: Expense)
    requires e.currency != currency
    ensures Settlements(expenses + [e], members, currency) == Settlements(expenses, members, currency)
  {
    OtherCurrencyIgnored(expenses, members, currency, e);
  }

  // ---------------------------------------------------------------------------
  // A creditor no settlement names

  /** Three expenses in one currency, each covered by its shares: `a` and `b`
      each owe 3 cents net, and `x`, `y` and `z` are each owed 2. */
  const UnlistedLedger: seq<Expense> := [
    Expense("e1", "EUR", 2, "x", [Share("a", 2)]),
    Expense("e2", "EUR", 2, "y", [Share("a", 1), Share("b", 1)]),
    Expense("e3", "EUR", 2, "z", [Share("b", 2)])
  ]

  /** The balances of `UnlistedLedger`, in key insertion order. */
  lemma UnlistedLedgerBalances()
    ensures Balances(UnlistedLedger, [], "EUR")
      == [Entry("x", 2), Entry("a", -3), Entry("y", 2), Entry("b", -3), Entry("z", 2)]
  {
    var E := UnlistedLedger;
    assert E[..|E| - 1] == E[..2] && E[..2][..1] == E[..1] && E[..1][..0] == [];
    assert E[0] == Expense("e1", "EUR", 2, "x", [Share("a", 2)]);
    assert E[1] == Expense("e2", "EUR", 2, "y", [Share("a", 1), Share("b", 1)]);
    assert E[2] == Expense("e3", "EUR", 2, "z", [Share("b", 2)]);
    var b1 := [Entry("x", 2), Entry("a", -2)];
    var b2 := [Entry("x", 2), Entry("a", -3), Entry("y", 2), Entry("b", -1)];
    var b3 := [Entry("x", 2), Entry("a", -3), Entry("y", 2), Entry("b", -3), Entry("z", 2)];
    assert ApplyExpense([], E[0]) == b1 by {
      FirstExpense();
    }
    assert ApplyExpense(b1, E[1]) == b2 by {
      SecondExpense();
    }
    assert ApplyExpense(b2, E[2]) == b3 by {
      ThirdExpense();
    }
    assert ApplyExpenses([], E[..1], "EUR") == b1;
    assert ApplyExpenses([], E[..2], "EUR") == b2;
  }

  lemma FirstExpense()
    ensures ApplyExpense([], Expense("e1", "EUR", 2, "x", [Share("a", 2)])) == [Entry("x", 2), Entry("a", -2)]
  {
    assert Bump([], "x", 2) == [Entry("x", 2)];
    assert [Share("a", 2)][..0] == [];
    assert Bump([Entry("x", 2)], "a", -2) == [Entry("x", 2), Entry("a", -2)];
  }

  lemma SecondExpense()
    ensures ApplyExpense([Entry("x", 2), Entry("a", -2)], Expense("e2", "EUR", 2, "y", [Share("a", 1), Share("b", 1)]))
      == [Entry("x", 2), Entry("a", -3), Entry("y", 2), Entry("b", -1)]
  {
    var c := [Entry("x", 2), Entry("a", -2), Entry("y", 2)];
    assert Bump([Entry("x", 2), Entry("a", -2)], "y", 2) == c;
    var shares := [Share("a", 1), Share("b", 1)];
    assert shares[..1] == [Share("a", 1)] && shares[..1][..0] == [];
    assert Bump(c, "a", -1) == [Entry("x", 2), Entry("a", -3), Entry("y", 2)];
    assert ApplyShares(c, shares[..1]) == [Entry("x", 2), Entry("a", -3), Entry("y", 2)];
    assert Bump([Entry("x", 2), Entry("a", -3), Entry("y", 2)], "b", -1)
      == [Entry("x", 2), Entry("a", -3), Entry("y", 2), Entry("b", -1)];
  }

  lemma ThirdExpense()
    ensures ApplyExpense([Entry("x", 2), Entry("a", -3), Entry("y", 2), Entry("b", -1)], Expense("e3", "EUR", 2, "z", [Share("b", 2)]))
      == [Entry("x", 2), Entry("a", -3), Entry("y", 2), Entry("b", -3), Entry("z", 2)]
  {
    var c := [Entry("x", 2), Entry("a", -3), Entry("y", 2), Entry("b", -1), Entry("z", 2)];
    BumpNew([Entry("x", 2), Entry("a", -3), Entry("y", 2), Entry("b", -1)], "z", 2);
    assert [Share("b", 2)][..0] == [];
    assert Bump(c, "b", -2) == [Entry("x", 2), Entry("a", -3), Entry("y", 2), Entry("b", -3), Entry("z", 2)];
  }

  /** The two lists the loop receives for `UnlistedLedger`: both are already
      in descending order, so sorting keeps them. */
  lemma {:induction false} UnlistedLedgerLists(expenses: seq<Expense>)
    requires expenses == UnlistedLedger
    ensures SortedDebtors(expenses, [], "EUR") == [Entry("a", 3), Entry("b", 3)]
    ensures SortedCreditors(expenses, [], "EUR") == [Entry("x", 2), Entry("y", 2), Entry("z", 2)]
  {
    var bal := Balances(expenses, [], "EUR");
    var ds, cs := [Entry("a", 3), Entry("b", 3)], [Entry("x", 2), Entry("y", 2), Entry("z", 2)];
    assert Debtors(bal) == ds && Creditors(bal) == cs by {
      UnlistedLedgerBalances();
      ExampleSplit([Entry("x", 2), Entry("a", -3), Entry("y", 2), Entry("b", -3), Entry("z", 2)]);
    }
    assert SortDesc(ds) == ds by {
      SortUniform(ds, 3);
    }
    assert SortDesc(cs) == cs by {
      SortUniform(cs, 2);
    }
  }

  lemma ExampleSplit(bal: seq<Entry>)
    requires bal == [Entry("x", 2), Entry("a", -3), Entry("y", 2), Entry("b", -3), Entry("z", 2)]
    ensures Debtors(bal) == [Entry("a", 3), Entry("b", 3)]
    ensures Creditors(bal) == [Entry("x", 2), Entry("y", 2), Entry("z", 2)]
  {
    assert bal[..|bal| - 1] == bal[..4] && bal[..4][..3] == bal[..3];
    assert bal[..3][..2] == bal[..2] && bal[..2][..1] == bal[..1] && bal[..1][..0] == [];
    assert bal[..1] == [Entry("x", 2)] && bal[1] == Entry("a", -3) && bal[2] == Entry("y", 2);
    assert bal[3] == Entry("b", -3) && bal[4] == Entry("z", 2);
    assert Debtors(bal[..1]) == [];
    assert Debtors(bal[..2]) == [Entry("a", 3)];
    assert Debtors(bal[..3]) == [Entry("a", 3)];
    assert Debtors(bal[..4]) == [Entry("a", 3), Entry("b", 3)];
    assert Creditors(bal[..1]) == [Entry("x", 2)];
    assert Creditors(bal[..2]) == [Entry("x", 2)];
    assert Creditors(bal[..3]) == [Entry("x", 2), Entry("y", 2)];
    assert Creditors(bal[..4]) == [Entry("x", 2), Entry("y", 2)];
  }

  /** In `UnlistedLedger`, `y` is owed 2 cents, more than the one-cent
      tolerance, yet no listed settlement names `y`: the loop pays `y` in two
      1-cent transfers, and the panel lists only transfers above one cent. */
  lemma {:induction false} UnlistedCreditor(expenses: seq<Expense>)
    requires expenses == UnlistedLedger
    ensures Net(expenses, "EUR", "y") == 2
    ensures ReceivedBy(Transfers(expenses, [], "EUR"), "y") == 2
    ensures forall s :: s in Settlements(expenses, [], "EUR") ==> s.from != "y" && s.to != "y"
  {
    UnlistedLedgerNet(expenses);
    UnlistedLedgerTransfers(expenses);
    UnlistedLedgerSettlements(expenses);
  }

  /** What the panel lists for `UnlistedLedger`: the two 2-cent transfers. */
  lemma {:induction false} UnlistedLedgerSettlements(expenses: seq<Expense>)
    requires expenses == UnlistedLedger
    ensures Settlements(expenses, [], "EUR")
      == [Settlement("a", "Unknown", "x", "Unknown", 2), Settlement("b", "Unknown", "z", "Unknown", 2)]
    ensures forall s :: s in Settlements(expenses, [], "EUR") ==> s.from != "y" && s.to != "y"
  {
    UnlistedLedgerTransfers(expenses);
  }

  /** `y` paid 2 cents for others and owes nothing. */
  lemma {:induction false} UnlistedLedgerNet(expenses: seq<Expense>)
    requires expenses == UnlistedLedger
    ensures Net(expenses, "EUR", "y") == 2
  {
    UnlistedLedgerBalances();
    BalanceIsNet(expenses, [], "EUR", "y");
    assert Get([Entry("x", 2), Entry("a", -3), Entry("y", 2), Entry("b", -3), Entry("z", 2)], "y") == 2;
  }

  /** The loop's run on `UnlistedLedger`: y receives 2 cents, in two 1-cent
      transfers, and only the transfers to x and z are listed. */
  lemma {:induction false} UnlistedLedgerTransfers(expenses: seq<Expense>)
    requires expenses == UnlistedLedger
    ensures ReceivedBy(Transfers(expenses, [], "EUR"), "y") == 2
    ensures Recorded(Transfers(expenses, [], "EUR"), [])
      == [Settlement("a", "Unknown", "x", "Unknown", 2), Settlement("b", "Unknown", "z", "Unknown", 2)]
  {
    UnlistedLedgerLists(expenses);
    UnlistedCreditorRun();
  }

}
