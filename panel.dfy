/**
  The settle-up panel around `calcSettlements`. It settles every currency
  that occurs among the expenses, decides whether anything is outstanding at
  all (`hasAny`), and, when something is, lists for each member and each
  currency the member paid in or holds a share in what they paid minus what
  they owe.
 */
module SettleUpPanel {
  import opened LedgerTypes
  import opened Netting
  import opened Matching
  import opened SettleUp

  /** `expenses.map(e => e.currency)` */
  function CurrencyColumn(expenses: seq<Expense>): seq<Currency>
  {
    seq(|expenses|, i requires 0 <= i < |expenses| => expenses[i].currency)
  }

  /** `[...new Set(expenses.map(e => e.currency))]`: each currency once, in
      order of first use. */
  function Currencies(expenses: seq<Expense>): seq<Currency>
  {
    Dedup(CurrencyColumn(expenses))
  }

  /** The currencies listed are exactly those some expense uses, each once. */
  lemma CurrenciesAre(expenses: seq<Expense>)
    ensures Distinct(Currencies(expenses))
    ensures forall c :: c in Currencies(expenses) <==> exists i :: 0 <= i < |expenses| && expenses[i].currency == c
  {
    var col := CurrencyColumn(expenses);
    forall c ensures c in col <==> exists i :: 0 <= i < |expenses| && expenses[i].currency == c {
      if c in col {
        var i :| 0 <= i < |col| && col[i] == c;
        assert expenses[i].currency == c;
      }
      if exists i :: 0 <= i < |expenses| && expenses[i].currency == c {
        var i :| 0 <= i < |expenses| && expenses[i].currency == c;
        assert col[i] == c;
      }
    }
  }

  // ---------------------------------------------------------------------------
  // Settling every currency

  /** Without an expense in a currency, everyone's net balance in it is zero. */
  lemma {:induction false} NoExpenseNoBalance(expenses: seq<Expense>, currency: Currency, x: UserId)
    requires forall i :: 0 <= i < |expenses| ==> expenses[i].currency != currency
    ensures Paid(expenses, currency, x) == 0 && Owes(expenses, currency, x) == 0
    decreases |expenses|
  {
    if expenses != [] {
      var p := expenses[..|expenses| - 1];
      assert forall i :: 0 <= i < |p| ==> p[i] == expenses[i];
      NoExpenseNoBalance(p, currency, x);
    }
  }

  lemma NoRowsEmpty(es: seq<Entry>)
    ensures (forall e :: e !in es) ==> es == []
  {
    if es != [] {
      assert es[0] in es;
    }
  }

  /** A currency that no expense uses has nothing to settle. */
  lemma SettledUnlessUsed(expenses: seq<Expense>, members: seq<Member>, currency: Currency)
    ensures Settlements(expenses, members, currency) != [] ==> currency in Currencies(expenses)
  {
    CurrenciesAre(expenses);
    if currency !in Currencies(expenses) {
      var sd := SortedDebtors(expenses, members, currency);
      forall x ensures Net(expenses, currency, x) == 0 {
        NoExpenseNoBalance(expenses, currency, x);
      }
      DebtorsAre(expenses, members, currency);
      NoRowsEmpty(sd);
      SettlementCount(expenses, members, currency);
    }
  }

  /** The driver: `calcSettlements` once per currency into `allSettlements`,
      then `hasAny`, whether some currency has a settlement to show. */
  method SettleAll(expenses: seq<Expense>, members: seq<Member>)
    returns (allSettlements: map<Currency, seq<Settlement>>, hasAny: bool)
    ensures forall c :: c in allSettlements <==> c in Currencies(expenses)
    ensures forall c :: c in allSettlements ==> allSettlements[c] == Settlements(expenses, members, c)
    ensures hasAny <==> exists c :: c in allSettlements && |allSettlements[c]| > 0
    ensures hasAny <==> exists c :: Settlements(expenses, members, c) != []
  {
    var currencies := Currencies(expenses);
    allSettlements := map[];
    for i := 0 to |currencies|
      invariant forall c :: c in allSettlements <==> c in currencies[..i]
      invariant forall c :: c in allSettlements ==> allSettlements[c] == Settlements(expenses, members, c)
    {
      var settlements := CalcSettlements(expenses, members, currencies[i]);
      allSettlements := allSettlements[currencies[i] := settlements];
      assert currencies[..i + 1] == currencies[..i] + [currencies[i]];
    }
    assert currencies[..|currencies|] == currencies;
    hasAny := exists c :: c in allSettlements && |allSettlements[c]| > 0;
    forall c | Settlements(expenses, members, c) != [] ensures c in allSettlements {
      SettledUnlessUsed(expenses, members, c);
    }
  }

  // ---------------------------------------------------------------------------
  // The per-person summary

  /** `paid`: for one member, per currency, the totals of the expenses they
      paid, keyed in order of first payment. */
  function PaidTable(expenses: seq<Expense>, id: UserId): seq<Entry>
    decreases |expenses|
  {
    if expenses == [] then []
    else
      var t := PaidTable(expenses[..|expenses| - 1], id);
      var e := expenses[|expenses| - 1];
      if e.paidBy == id then Bump(t, e.currency, e.totalAmount) else t
  }

  /** Add to `owes[currency]` every share in `shares` that `id` holds. */
  function OwedShares(t: seq<Entry>, currency: Currency, shares: seq<Share>, id: UserId): seq<Entry>
    decreases |shares|
  {
    if shares == [] then t
    else
      var u := OwedShares(t, currency, shares[..|shares| - 1], id);
      var s := shares[|shares| - 1];
      if s.userId == id then Bump(u, currency, s.amount) else u
  }

  /** `owes`: for one member, per currency, the total of the shares they hold. */
  function OwesTable(expenses: seq<Expense>, id: UserId): seq<Entry>
    decreases |expenses|
  {
    if expenses == [] then []
    else
      var e := expenses[|expenses| - 1];
      OwedShares(OwesTable(expenses[..|expenses| - 1], id), e.currency, e.shares, id)
  }

  /** `Object.keys(record)` */
  function Keys(es: seq<Entry>): seq<string>
  {
    seq(|es|, i requires 0 <= i < |es| => es[i].id)
  }

  /** One `{ currency, net }` line per listed currency. */
  function NetLines(curs: seq<Currency>, paid: seq<Entry>, owes: seq<Entry>): seq<Entry>
  {
    seq(|curs|, i requires 0 <= i < |curs| => Entry(curs[i], Get(paid, curs[i]) - Get(owes, curs[i])))
  }

  /** A member's summary lines: `allCurs`, the currencies with a paid or an
      owed entry, each with paid minus owed. */
  function SummaryLines(expenses: seq<Expense>, id: UserId): seq<Entry>
  {
    var paid, owes := PaidTable(expenses, id), OwesTable(expenses, id);
    NetLines(Dedup(Keys(paid) + Keys(owes)), paid, owes)
  }

  lemma KeysAre(es: seq<Entry>)
    ensures forall x :: x in Keys(es) <==> x in Ids(es)
  {
    forall x | x in Ids(es) ensures x in Keys(es) {
      var e :| e in es && e.id == x;
      var i :| 0 <= i < |es| && es[i] == e;
      assert Keys(es)[i] == x;
    }
  }

  /** The paid table holds, per currency, exactly what the member paid. */
  lemma {:induction false} PaidTableValues(expenses: seq<Expense>, id: UserId, c: Currency)
    ensures Get(PaidTable(expenses, id), c) == Paid(expenses, c, id)
    decreases |expenses|
  {
    if expenses != [] {
      var p := expenses[..|expenses| - 1];
      var e := expenses[|expenses| - 1];
      var t := PaidTable(p, id);
      PaidTableValues(p, id, c);
      if e.paidBy == id {
        PutGet(t, e.currency, Get(t, e.currency) + e.totalAmount, c);
      }
    }
  }

  /** The paid table has a key for exactly the currencies of the expenses the
      member paid. */
  lemma {:induction false} PaidTableKeys(expenses: seq<Expense>, id: UserId, c: Currency)
    ensures c in Ids(PaidTable(expenses, id)) <==>
      exists i :: 0 <= i < |expenses| && expenses[i].currency == c && expenses[i].paidBy == id
    decreases |expenses|
  {
    if expenses != [] {
      var p := expenses[..|expenses| - 1];
      var e := expenses[|expenses| - 1];
      var t := PaidTable(p, id);
      PaidTableKeys(p, id, c);
      assert c in Ids(PaidTable(expenses, id)) <==> c in Ids(t) || (e.paidBy == id && e.currency == c) by {
        if e.paidBy == id {
          PutKeys(t, e.currency, Get(t, e.currency) + e.totalAmount);
        }
      }
      assert (exists i :: 0 <= i < |expenses| && expenses[i].currency == c && expenses[i].paidBy == id) <==>
        (exists i :: 0 <= i < |p| && p[i].currency == c && p[i].paidBy == id) || (e.paidBy == id && e.currency == c) by {
        if exists i :: 0 <= i < |p| && p[i].currency == c && p[i].paidBy == id {
          var i :| 0 <= i < |p| && p[i].currency == c && p[i].paidBy == id;
          assert expenses[i] == p[i];
        }
        if exists i :: 0 <= i < |expenses| && expenses[i].currency == c && expenses[i].paidBy == id {
          var i :| 0 <= i < |expenses| && expenses[i].currency == c && expenses[i].paidBy == id;
          if i < |p| {
            assert p[i] == expenses[i];
          }
        }
        if e.paidBy == id && e.currency == c {
          assert expenses[|expenses| - 1] == e;
        }
      }
    }
  }

  lemma {:induction false} OwedSharesValues(t: seq<Entry>, currency: Currency, shares: seq<Share>, id: UserId, c: Currency)
    ensures Get(OwedShares(t, currency, shares, id), c) == Get(t, c) + (if c == currency then ShareOf(shares, id) else 0)
    decreases |shares|
  {
    if shares != [] {
      var p := shares[..|shares| - 1];
      var s := shares[|shares| - 1];
      var u := OwedShares(t, currency, p, id);
      OwedSharesValues(t, currency, p, id, c);
      if s.userId == id {
        PutGet(u, currency, Get(u, currency) + s.amount, c);
      }
    }
  }

  lemma {:induction false} OwedSharesKeys(t: seq<Entry>, currency: Currency, shares: seq<Share>, id: UserId)
    ensures Ids(OwedShares(t, currency, shares, id)) == Ids(t) + (if id in ShareIds(shares) then {currency} else {})
    decreases |shares|
  {
    if shares != [] {
      var p := shares[..|shares| - 1];
      var s := shares[|shares| - 1];
      var u := OwedShares(t, currency, p, id);
      OwedSharesKeys(t, currency, p, id);
      if s.userId == id {
        PutKeys(u, currency, Get(u, currency) + s.amount);
      }
      assert shares == p + [s];
      ShareIdsSnoc(p, s);
    }
  }

  /** The owes table holds, per currency, exactly the shares the member holds,
      and has a key for exactly the currencies in which they hold a share. */
  lemma {:induction false} OwesTableMeans(expenses: seq<Expense>, id: UserId, c: Currency)
    ensures Get(OwesTable(expenses, id), c) == Owes(expenses, c, id)
    ensures c in Ids(OwesTable(expenses, id)) <==>
      exists i :: 0 <= i < |expenses| && expenses[i].currency == c && id in ShareIds(expenses[i].shares)
    decreases |expenses|
  {
    if expenses != [] {
      var p := expenses[..|expenses| - 1];
      var e := expenses[|expenses| - 1];
      OwesTableMeans(p, id, c);
      OwedSharesValues(OwesTable(p, id), e.currency, e.shares, id, c);
      OwedSharesKeys(OwesTable(p, id), e.currency, e.shares, id);
      if exists i :: 0 <= i < |p| && p[i].currency == c && id in ShareIds(p[i].shares) {
        var i :| 0 <= i < |p| && p[i].currency == c && id in ShareIds(p[i].shares);
        assert expenses[i] == p[i];
      }
      if exists i :: 0 <= i < |expenses| && expenses[i].currency == c && id in ShareIds(expenses[i].shares) {
        var i :| 0 <= i < |expenses| && expenses[i].currency == c && id in ShareIds(expenses[i].shares);
        if i < |p| {
          assert p[i] == expenses[i];
        }
      }
    }
  }

  /** A member's summary lists each currency once: exactly the currencies of the
      expenses they paid or hold a share in, each with what they paid minus
      what they owe in it. */
  lemma SummaryMeans(expenses: seq<Expense>, id: UserId)
    ensures DistinctIds(SummaryLines(expenses, id))
    ensures forall l :: l in SummaryLines(expenses, id) ==> l.amount == Net(expenses, l.id, id)
    ensures forall c :: c in Ids(SummaryLines(expenses, id)) <==>
      exists i :: 0 <= i < |expenses| && expenses[i].currency == c
                  && (expenses[i].paidBy == id || id in ShareIds(expenses[i].shares))
  {
    var paid, owes := PaidTable(expenses, id), OwesTable(expenses, id);
    var curs := Dedup(Keys(paid) + Keys(owes));
    var lines := SummaryLines(expenses, id);
    KeysAre(paid);
    KeysAre(owes);
    forall l | l in lines ensures l.amount == Net(expenses, l.id, id) {
      PaidTableValues(expenses, id, l.id);
      OwesTableMeans(expenses, id, l.id);
    }
    forall c ensures c in Ids(lines) <==> c in curs {
      if c in curs {
        var i :| 0 <= i < |curs| && curs[i] == c;
        assert lines[i] in lines;
      }
    }
    forall c ensures c in curs <==>
      exists i :: 0 <= i < |expenses| && expenses[i].currency == c
                  && (expenses[i].paidBy == id || id in ShareIds(expenses[i].shares))
    {
      PaidTableKeys(expenses, id, c);
      OwesTableMeans(expenses, id, c);
    }
  }

  /** Each summary line is the member's balance that `calcSettlements` computes
      for that currency, before the one-cent band and the matching. */
  lemma SummaryMatchesBalance(expenses: seq<Expense>, members: seq<Member>, id: UserId)
    ensures forall l :: l in SummaryLines(expenses, id) ==> l.amount == Get(Balances(expenses, members, l.id), id)
  {
    SummaryMeans(expenses, id);
    forall l | l in SummaryLines(expenses, id) ensures l.amount == Get(Balances(expenses, members, l.id), id) {
      BalanceIsNet(expenses, members, l.id, id);
    }
  }

  /** The body of `members.map(m => ...)` up to the lines it renders. */
  method MemberSummary(expenses: seq<Expense>, m: Member) returns (lines: seq<Entry>)
    ensures lines == SummaryLines(expenses, m.userId)
  {
    var paid, owes := [], [];
    for i := 0 to |expenses|
      invariant paid == PaidTable(expenses[..i], m.userId)
      invariant owes == OwesTable(expenses[..i], m.userId)
    {
      assert expenses[..i + 1][..i] == expenses[..i];
      var e := expenses[i];
      if e.paidBy == m.userId {
        paid := Bump(paid, e.currency, e.totalAmount);
      }
      ghost var before := owes;
      for k := 0 to |e.shares|
        invariant owes == OwedShares(before, e.currency, e.shares[..k], m.userId)
      {
        assert e.shares[..k + 1][..k] == e.shares[..k];
        if e.shares[k].userId == m.userId {
          owes := Bump(owes, e.currency, e.shares[k].amount);
        }
      }
      assert e.shares[..|e.shares|] == e.shares;
    }
    assert expenses[..|expenses|] == expenses;
    var allCurs := Dedup(Keys(paid) + Keys(owes));
    lines := [];
    for j := 0 to |allCurs|
      invariant lines == NetLines(allCurs[..j], paid, owes)
    {
      var net := Get(paid, allCurs[j]) - Get(owes, allCurs[j]);
      lines := lines + [Entry(allCurs[j], net)];
    }
    assert allCurs[..|allCurs|] == allCurs;
  }

  /** One member's block in the summary. */
  datatype MemberSummaryBlock = MemberSummaryBlock(member: Member, lines: seq<Entry>)

  /** The blocks the summary shows: one per member, in member order, skipping
      members with no line. */
  function SummaryBlocks(expenses: seq<Expense>, members: seq<Member>): seq<MemberSummaryBlock>
    decreases |members|
  {
    if members == [] then []
    else
      var m := members[|members| - 1];
      var lines := SummaryLines(expenses, m.userId);
      SummaryBlocks(expenses, members[..|members| - 1])
        + (if lines == [] then [] else [MemberSummaryBlock(m, lines)])
  }

  /** A block is shown for exactly the members with a line, carrying their lines. */
  lemma {:induction false} SummaryBlocksAre(expenses: seq<Expense>, members: seq<Member>)
    ensures forall b :: b in SummaryBlocks(expenses, members) <==>
      b.member in members && b.lines == SummaryLines(expenses, b.member.userId) && b.lines != []
    decreases |members|
  {
    if members != [] {
      var p := members[..|members| - 1];
      SummaryBlocksAre(expenses, p);
      assert members == p + [members[|members| - 1]];
    }
  }

  /** The per-person summary, rendered only when `hasAny` holds. */
  method PerPersonSummary(expenses: seq<Expense>, members: seq<Member>, hasAny: bool)
    returns (blocks: seq<MemberSummaryBlock>)
    ensures blocks == if hasAny then SummaryBlocks(expenses, members) else []
  {
    blocks := [];
    if hasAny {
      for i := 0 to |members|
        invariant blocks == SummaryBlocks(expenses, members[..i])
      {
        assert members[..i + 1][..i] == members[..i];
        var lines := MemberSummary(expenses, members[i]);
        if |lines| != 0 {
          blocks := blocks + [MemberSummaryBlock(members[i], lines)];
        }
      }
      assert members[..|members|] == members;
    }
  }

  /** What the panel computes: the settlements per currency, `hasAny`, and the
      per-person summary, which is shown only when some currency still has a
      settlement to show. */
  method PanelContents(expenses: seq<Expense>, members: seq<Member>)
    returns (allSettlements: map<Currency, seq<Settlement>>, hasAny: bool, blocks: seq<MemberSummaryBlock>)
    ensures forall c :: c in allSettlements <==> c in Currencies(expenses)
    ensures forall c :: c in allSettlements ==> allSettlements[c] == Settlements(expenses, members, c)
    ensures hasAny <==> exists c :: Settlements(expenses, members, c) != []
    ensures (exists c :: Settlements(expenses, members, c) != []) ==> blocks == SummaryBlocks(expenses, members)
    ensures (forall c :: Settlements(expenses, members, c) == []) ==> blocks == []
  {
    allSettlements, hasAny := SettleAll(expenses, members);
    blocks := PerPersonSummary(expenses, members, hasAny);
  }
}
