/**
  Balance netting for one currency, the first phase of `calcSettlements`:
  every member starts at 0, then each expense in the requested currency credits
  its payer with the total and debits each share holder with the share.
  `Balances` is the fold the panel performs, `ComputeBalances` the loop that
  performs it, and `Net` an independent definition (paid minus owed) that the
  fold is proved to agree with.
 */
module Netting {
  import opened LedgerTypes

  /** `members.forEach(m => { balances[m.user_id] = 0; })` */
  function InitBalances(members: seq<Member>): seq<Entry>
    decreases |members|
  {
    if members == [] then []
    else Put(InitBalances(members[..|members| - 1]), members[|members| - 1].userId, 0)
  }

  /** Debit every share holder with the amount of the share, in share order. */
  function ApplyShares(bal: seq<Entry>, shares: seq<Share>): seq<Entry>
    decreases |shares|
  {
    if shares == [] then bal
    else
      var s := shares[|shares| - 1];
      Bump(ApplyShares(bal, shares[..|shares| - 1]), s.userId, -s.amount)
  }

  /** Credit the payer with the total, then debit the shares. */
  function ApplyExpense(bal: seq<Entry>, e: Expense): seq<Entry>
  {
    ApplyShares(Bump(bal, e.paidBy, e.totalAmount), e.shares)
  }

  /** Apply, in order, the expenses whose currency is `currency`. */
  function ApplyExpenses(bal: seq<Entry>, expenses: seq<Expense>, currency: Currency): seq<Entry>
    decreases |expenses|
  {
    if expenses == [] then bal
    else
      var b := ApplyExpenses(bal, expenses[..|expenses| - 1], currency);
      var e := expenses[|expenses| - 1];
      if e.currency == currency then ApplyExpense(b, e) else b
  }

  /** The `balances` record of `calcSettlements`, in key insertion order. */
  function Balances(expenses: seq<Expense>, members: seq<Member>, currency: Currency): (bal: seq<Entry>)
    ensures DistinctIds(bal)
  {
    InitKeys(members);
    ApplyExpensesDistinct(InitBalances(members), expenses, currency);
    ApplyExpenses(InitBalances(members), expenses, currency)
  }

  // ---------------------------------------------------------------------------
  // Reference definitions

  /** What `id` owes under a list of shares. */
  function ShareOf(shares: seq<Share>, id: UserId): int
    decreases |shares|
  {
    if shares == [] then 0
    else
      var s := shares[|shares| - 1];
      ShareOf(shares[..|shares| - 1], id) + (if s.userId == id then s.amount else 0)
  }

  function ShareTotal(shares: seq<Share>): int
    decreases |shares|
  {
    if shares == [] then 0 else ShareTotal(shares[..|shares| - 1]) + shares[|shares| - 1].amount
  }

  /** Total paid by `id` in `currency`. */
  function Paid(expenses: seq<Expense>, currency: Currency, id: UserId): int
    decreases |expenses|
  {
    if expenses == [] then 0
    else
      var e := expenses[|expenses| - 1];
      Paid(expenses[..|expenses| - 1], currency, id)
        + (if e.currency == currency && e.paidBy == id then e.totalAmount else 0)
  }

  /** Total of the shares `id` holds in `currency`. */
  function Owes(expenses: seq<Expense>, currency: Currency, id: UserId): int
    decreases |expenses|
  {
    if expenses == [] then 0
    else
      var e := expenses[|expenses| - 1];
      Owes(expenses[..|expenses| - 1], currency, id)
        + (if e.currency == currency then ShareOf(e.shares, id) else 0)
  }

  /** Paid minus owed: positive means the participant is owed money. */
  function Net(expenses: seq<Expense>, currency: Currency, id: UserId): int
  {
    Paid(expenses, currency, id) - Owes(expenses, currency, id)
  }

  /** How far the expenses in `currency` are from being covered by their shares. */
  function Imbalance(expenses: seq<Expense>, currency: Currency): int
    decreases |expenses|
  {
    if expenses == [] then 0
    else
      var e := expenses[|expenses| - 1];
      Imbalance(expenses[..|expenses| - 1], currency)
        + (if e.currency == currency then e.totalAmount - ShareTotal(e.shares) else 0)
  }

  /** `expenses.filter(e => e.currency === currency)` */
  function OfCurrency(expenses: seq<Expense>, currency: Currency): seq<Expense>
    decreases |expenses|
  {
    if expenses == [] then []
    else
      var e := expenses[|expenses| - 1];
      OfCurrency(expenses[..|expenses| - 1], currency) + (if e.currency == currency then [e] else [])
  }

  function MemberIds(members: seq<Member>): set<UserId>
  {
    set m | m in members :: m.userId
  }

  function ShareIds(shares: seq<Share>): set<UserId>
  {
    set s | s in shares :: s.userId
  }

  lemma ShareIdsSnoc(p: seq<Share>, s: Share)
    ensures ShareIds(p + [s]) == ShareIds(p) + {s.userId}
  {
    assert forall x :: x in p + [s] <==> x in p || x == s;
  }

  /** Everyone an expense touches: its payer and its share holders. */
  function PartyIds(e: Expense): set<UserId>
  {
    {e.paidBy} + ShareIds(e.shares)
  }

  /** Everyone some expense in `currency` touches. */
  function InvolvedIds(expenses: seq<Expense>, currency: Currency): set<UserId>
    decreases |expenses|
  {
    if expenses == [] then {}
    else
      var e := expenses[|expenses| - 1];
      InvolvedIds(expenses[..|expenses| - 1], currency) + (if e.currency == currency then PartyIds(e) else {})
  }

  /** An id is involved exactly when some expense in the currency names it as
      payer or share holder. */
  lemma {:induction false} InvolvedMeans(expenses: seq<Expense>, currency: Currency, id: UserId)
    ensures id in InvolvedIds(expenses, currency) <==>
      exists i :: 0 <= i < |expenses| && expenses[i].currency == currency && id in PartyIds(expenses[i])
    decreases |expenses|
  {
    if expenses != [] {
      var p := expenses[..|expenses| - 1];
      InvolvedMeans(p, currency, id);
      if exists i :: 0 <= i < |expenses| && expenses[i].currency == currency && id in PartyIds(expenses[i]) {
        var i :| 0 <= i < |expenses| && expenses[i].currency == currency && id in PartyIds(expenses[i]);
        if i < |p| {
          assert p[i] == expenses[i];
        }
      }
    }
  }

  // ---------------------------------------------------------------------------
  // Values: the fold computes paid minus owed

  lemma {:induction false} InitGet(members: seq<Member>, id: UserId)
    ensures Get(InitBalances(members), id) == 0
  {
    if members != [] {
      var m := members[|members| - 1];
      InitGet(members[..|members| - 1], id);
      PutGet(InitBalances(members[..|members| - 1]), m.userId, 0, id);
    }
  }

  lemma {:induction false} ApplySharesGet(bal: seq<Entry>, shares: seq<Share>, id: UserId)
    ensures Get(ApplyShares(bal, shares), id) == Get(bal, id) - ShareOf(shares, id)
    decreases |shares|
  {
    if shares != [] {
      var s := shares[|shares| - 1];
      var b := ApplyShares(bal, shares[..|shares| - 1]);
      ApplySharesGet(bal, shares[..|shares| - 1], id);
      PutGet(b, s.userId, Get(b, s.userId) - s.amount, id);
    }
  }

  lemma {:induction false} ApplyExpensesGet(bal: seq<Entry>, expenses: seq<Expense>, currency: Currency, id: UserId)
    ensures Get(ApplyExpenses(bal, expenses, currency), id) == Get(bal, id) + Net(expenses, currency, id)
    decreases |expenses|
  {
    if expenses != [] {
      var e := expenses[|expenses| - 1];
      var b := ApplyExpenses(bal, expenses[..|expenses| - 1], currency);
      ApplyExpensesGet(bal, expenses[..|expenses| - 1], currency, id);
      if e.currency == currency {
        var b1 := Bump(b, e.paidBy, e.totalAmount);
        PutGet(b, e.paidBy, Get(b, e.paidBy) + e.totalAmount, id);
        ApplySharesGet(b1, e.shares, id);
      }
    }
  }

  /** The balance the panel nets for `id` is what `id` paid minus what `id` owes
      in that currency; an id with no entry reads as 0 and has net 0. */
  lemma BalanceIsNet(expenses: seq<Expense>, members: seq<Member>, currency: Currency, id: UserId)
    ensures Get(Balances(expenses, members, currency), id) == Net(expenses, currency, id)
  {
    InitGet(members, id);
    ApplyExpensesGet(InitBalances(members), expenses, currency, id);
  }

  // ---------------------------------------------------------------------------
  // Keys: every member, plus everyone an expense in the currency touches

  lemma {:induction false} InitKeys(members: seq<Member>)
    ensures Ids(InitBalances(members)) == MemberIds(members)
    ensures DistinctIds(InitBalances(members))
    decreases |members|
  {
    if members != [] {
      var p := members[..|members| - 1];
      var m := members[|members| - 1];
      InitKeys(p);
      PutKeys(InitBalances(p), m.userId, 0);
      PutDistinct(InitBalances(p), m.userId, 0);
      assert members == p + [m];
      assert forall x :: x in members <==> x in p || x == m;
    }
  }

  lemma {:induction false} ApplySharesKeys(bal: seq<Entry>, shares: seq<Share>)
    ensures Ids(ApplyShares(bal, shares)) == Ids(bal) + ShareIds(shares)
    ensures DistinctIds(bal) ==> DistinctIds(ApplyShares(bal, shares))
    decreases |shares|
  {
    if shares != [] {
      var p := shares[..|shares| - 1];
      var s := shares[|shares| - 1];
      var b := ApplyShares(bal, p);
      ApplySharesKeys(bal, p);
      PutKeys(b, s.userId, Get(b, s.userId) - s.amount);
      if DistinctIds(bal) {
        PutDistinct(b, s.userId, Get(b, s.userId) - s.amount);
      }
      assert shares == p + [s];
      ShareIdsSnoc(p, s);
    }
  }

  lemma {:induction false} ApplyExpensesKeys(bal: seq<Entry>, expenses: seq<Expense>, currency: Currency)
    ensures Ids(ApplyExpenses(bal, expenses, currency)) == Ids(bal) + InvolvedIds(expenses, currency)
    decreases |expenses|
  {
    if expenses != [] {
      var e := expenses[|expenses| - 1];
      var p := expenses[..|expenses| - 1];
      var b := ApplyExpenses(bal, p, currency);
      ApplyExpensesKeys(bal, p, currency);
      if e.currency == currency {
        var b1 := Bump(b, e.paidBy, e.totalAmount);
        PutKeys(b, e.paidBy, Get(b, e.paidBy) + e.totalAmount);
        assert Ids(b1) == Ids(b) + {e.paidBy};
        ApplySharesKeys(b1, e.shares);
        assert ApplyExpenses(bal, expenses, currency) == ApplyShares(b1, e.shares);
        assert InvolvedIds(expenses, currency) == InvolvedIds(p, currency) + PartyIds(e);
      } else {
        assert ApplyExpenses(bal, expenses, currency) == b;
        assert InvolvedIds(expenses, currency) == InvolvedIds(p, currency);
      }
    }
  }

  lemma {:induction false} ApplyExpensesDistinct(bal: seq<Entry>, expenses: seq<Expense>, currency: Currency)
    requires DistinctIds(bal)
    ensures DistinctIds(ApplyExpenses(bal, expenses, currency))
    decreases |expenses|
  {
    if expenses != [] {
      var e := expenses[|expenses| - 1];
      var b := ApplyExpenses(bal, expenses[..|expenses| - 1], currency);
      ApplyExpensesDistinct(bal, expenses[..|expenses| - 1], currency);
      if e.currency == currency {
        PutDistinct(b, e.paidBy, Get(b, e.paidBy) + e.totalAmount);
        ApplySharesKeys(Bump(b, e.paidBy, e.totalAmount), e.shares);
      }
    }
  }

  /** Every member has a balance, and so does every payer or share holder of an
      expense in the currency even when absent from the roster (the `|| 0`
      fallback); nobody else does, and no id has two entries. */
  lemma BalanceKeys(expenses: seq<Expense>, members: seq<Member>, currency: Currency)
    ensures Ids(Balances(expenses, members, currency)) == MemberIds(members) + InvolvedIds(expenses, currency)
    ensures DistinctIds(Balances(expenses, members, currency))
  {
    InitKeys(members);
    ApplyExpensesKeys(InitBalances(members), expenses, currency);
    ApplyExpensesDistinct(InitBalances(members), expenses, currency);
  }

  // ---------------------------------------------------------------------------
  // Conservation

  lemma {:induction false} InitSum(members: seq<Member>)
    ensures Sum(InitBalances(members)) == 0
    decreases |members|
  {
    if members != [] {
      var p := members[..|members| - 1];
      InitSum(p);
      InitGet(p, members[|members| - 1].userId);
      PutSum(InitBalances(p), members[|members| - 1].userId, 0);
    }
  }

  lemma {:induction false} ApplySharesSum(bal: seq<Entry>, shares: seq<Share>)
    ensures Sum(ApplyShares(bal, shares)) == Sum(bal) - ShareTotal(shares)
    decreases |shares|
  {
    if shares != [] {
      var s := shares[|shares| - 1];
      var b := ApplyShares(bal, shares[..|shares| - 1]);
      ApplySharesSum(bal, shares[..|shares| - 1]);
      PutSum(b, s.userId, Get(b, s.userId) - s.amount);
    }
  }

  lemma {:induction false} ApplyExpensesSum(bal: seq<Entry>, expenses: seq<Expense>, currency: Currency)
    ensures Sum(ApplyExpenses(bal, expenses, currency)) == Sum(bal) + Imbalance(expenses, currency)
    decreases |expenses|
  {
    if expenses != [] {
      var e := expenses[|expenses| - 1];
      var b := ApplyExpenses(bal, expenses[..|expenses| - 1], currency);
      ApplyExpensesSum(bal, expenses[..|expenses| - 1], currency);
      if e.currency == currency {
        PutSum(b, e.paidBy, Get(b, e.paidBy) + e.totalAmount);
        ApplySharesSum(Bump(b, e.paidBy, e.totalAmount), e.shares);
      }
    }
  }

  /** The balances sum to the expenses' totals minus their shares. */
  lemma Conservation(expenses: seq<Expense>, members: seq<Member>, currency: Currency)
    ensures Sum(Balances(expenses, members, currency)) == Imbalance(expenses, currency)
  {
    InitSum(members);
    ApplyExpensesSum(InitBalances(members), expenses, currency);
  }

  lemma {:induction false} CoveredHasNoImbalance(expenses: seq<Expense>, currency: Currency)
    requires forall e :: e in expenses && e.currency == currency ==> ShareTotal(e.shares) == e.totalAmount
    ensures Imbalance(expenses, currency) == 0
    decreases |expenses|
  {
    if expenses != [] {
      assert expenses[|expenses| - 1] in expenses;
      CoveredHasNoImbalance(expenses[..|expenses| - 1], currency);
    }
  }

  /** When every expense's shares add up to its total, the balances sum to 0. */
  lemma ConservationWhenCovered(expenses: seq<Expense>, members: seq<Member>, currency: Currency)
    requires forall e :: e in expenses && e.currency == currency ==> ShareTotal(e.shares) == e.totalAmount
    ensures Sum(Balances(expenses, members, currency)) == 0
  {
    Conservation(expenses, members, currency);
    CoveredHasNoImbalance(expenses, currency);
  }

  // ---------------------------------------------------------------------------
  // Currency independence

  lemma {:induction false} FilterIrrelevant(bal: seq<Entry>, expenses: seq<Expense>, currency: Currency)
    ensures ApplyExpenses(bal, OfCurrency(expenses, currency), currency) == ApplyExpenses(bal, expenses, currency)
    decreases |expenses|
  {
    if expenses != [] {
      var p := expenses[..|expenses| - 1];
      var e := expenses[|expenses| - 1];
      FilterIrrelevant(bal, p, currency);
      if e.currency == currency {
        var f := OfCurrency(p, currency) + [e];
        assert OfCurrency(expenses, currency) == f;
        assert f[..|f| - 1] == OfCurrency(p, currency);
        assert f[|f| - 1] == e;
      } else {
        assert OfCurrency(expenses, currency) == OfCurrency(p, currency);
      }
    }
  }

  /** Only the expenses in the requested currency affect its balances: dropping
      every other expense changes nothing. */
  lemma OnlyOwnCurrencyCounts(expenses: seq<Expense>, members: seq<Member>, currency: Currency)
    ensures Balances(OfCurrency(expenses, currency), members, currency) == Balances(expenses, members, currency)
  {
    FilterIrrelevant(InitBalances(members), expenses, currency);
  }

  /** An expense in another currency leaves every balance as it was. */
  lemma OtherCurrencyIgnored(expenses: seq<Expense>, members: seq<Member>, currency: Currency, e: Expense)
    requires e.currency != currency
    ensures Balances(expenses + [e], members, currency) == Balances(expenses, members, currency)
  {
    assert (expenses + [e])[..|expenses|] == expenses;
  }

  // ---------------------------------------------------------------------------
  // The loop

  /** The two `forEach` passes that fill the `balances` record. */
  method ComputeBalances(expenses: seq<Expense>, members: seq<Member>, currency: Currency) returns (bal: seq<Entry>)
    ensures bal == Balances(expenses, members, currency)
    ensures DistinctIds(bal)
    ensures forall id :: Get(bal, id) == Net(expenses, currency, id)
  {
    bal := [];
    for i := 0 to |members|
      invariant bal == InitBalances(members[..i])
    {
      assert members[..i + 1][..i] == members[..i];
      bal := Put(bal, members[i].userId, 0);
    }
    assert members[..|members|] == members;
    for i := 0 to |expenses|
      invariant bal == ApplyExpenses(InitBalances(members), expenses[..i], currency)
    {
      assert expenses[..i + 1][..i] == expenses[..i];
      var e := expenses[i];
      if e.currency == currency {
        bal := Bump(bal, e.paidBy, e.totalAmount);
        ghost var credited := bal;
        for k := 0 to |e.shares|
          invariant bal == ApplyShares(credited, e.shares[..k])
        {
          assert e.shares[..k + 1][..k] == e.shares[..k];
          bal := Bump(bal, e.shares[k].userId, -e.shares[k].amount);
        }
        assert e.shares[..|e.shares|] == e.shares;
      }
    }
    assert expenses[..|expenses|] == expenses;
    BalanceKeys(expenses, members, currency);
    forall id ensures Get(bal, id) == Net(expenses, currency, id) {
      BalanceIsNet(expenses, members, currency, id);
    }
  }
}
