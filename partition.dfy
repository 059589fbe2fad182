/**
  The second phase of `calcSettlements`: walking the balances in key order,
  a balance below -1 cent makes its holder a debtor (owing the negated balance)
  and one above +1 cent a creditor; balances in the band [-1, 1] are treated as
  settled. Cents make `Math.round(bal * 100) / 100` the identity.
 */
module Partition {
  import opened LedgerTypes

  /** The `debtors` list, in balance order. */
  function Debtors(bal: seq<Entry>): seq<Entry>
    decreases |bal|
  {
    if bal == [] then []
    else
      var e := bal[|bal| - 1];
      Debtors(bal[..|bal| - 1]) + (if e.amount < -1 then [Entry(e.id, -e.amount)] else [])
  }

  /** The `creditors` list, in balance order. */
  function Creditors(bal: seq<Entry>): seq<Entry>
    decreases |bal|
  {
    if bal == [] then []
    else
      var e := bal[|bal| - 1];
      Creditors(bal[..|bal| - 1]) + (if e.amount > 1 then [e] else [])
  }

  /** The balances inside the tolerance band, which neither list receives. */
  function Band(bal: seq<Entry>): seq<Entry>
    decreases |bal|
  {
    if bal == [] then []
    else
      var e := bal[|bal| - 1];
      Band(bal[..|bal| - 1]) + (if -1 <= e.amount <= 1 then [e] else [])
  }

  /** A debtor is exactly a balance below -1 cent, recorded as a positive debt. */
  lemma {:induction false} DebtorsExactly(bal: seq<Entry>)
    ensures forall d :: d in Debtors(bal) <==> d.amount > 1 && Entry(d.id, -d.amount) in bal
    decreases |bal|
  {
    if bal != [] {
      var p := bal[..|bal| - 1];
      DebtorsExactly(p);
      assert bal == p + [bal[|bal| - 1]];
    }
  }

  /** A creditor is exactly a balance above +1 cent. */
  lemma {:induction false} CreditorsExactly(bal: seq<Entry>)
    ensures forall c :: c in Creditors(bal) <==> c.amount > 1 && c in bal
    decreases |bal|
  {
    if bal != [] {
      var p := bal[..|bal| - 1];
      CreditorsExactly(p);
      assert bal == p + [bal[|bal| - 1]];
    }
  }

  lemma {:induction false} BandExactly(bal: seq<Entry>)
    ensures forall e :: e in Band(bal) <==> -1 <= e.amount <= 1 && e in bal
    decreases |bal|
  {
    if bal != [] {
      var p := bal[..|bal| - 1];
      BandExactly(p);
      assert bal == p + [bal[|bal| - 1]];
    }
  }

  /** Appending one entry whose key is new keeps the keys distinct. */
  lemma SnocDistinct(es: seq<Entry>, e: Entry)
    requires DistinctIds(es) && e.id !in Ids(es)
    ensures DistinctIds(es + [e])
  {
    forall i | 0 <= i < |es| ensures (es + [e])[i].id != e.id {
      assert es[i] in es;
    }
  }

  lemma {:induction false} DebtorsDistinct(bal: seq<Entry>)
    requires DistinctIds(bal)
    ensures DistinctIds(Debtors(bal))
    ensures Ids(Debtors(bal)) <= Ids(bal)
    decreases |bal|
  {
    if bal != [] {
      var p := bal[..|bal| - 1];
      var e := bal[|bal| - 1];
      assert DistinctIds(p);
      DebtorsDistinct(p);
      assert e.id !in Ids(p);
      assert e in bal;
      if e.amount < -1 {
        SnocDistinct(Debtors(p), Entry(e.id, -e.amount));
        IdsConcat(Debtors(p), [Entry(e.id, -e.amount)]);
      }
      assert bal == p + [e];
      IdsConcat(p, [e]);
    }
  }

  lemma {:induction false} CreditorsDistinct(bal: seq<Entry>)
    requires DistinctIds(bal)
    ensures DistinctIds(Creditors(bal))
    ensures Ids(Creditors(bal)) <= Ids(bal)
    decreases |bal|
  {
    if bal != [] {
      var p := bal[..|bal| - 1];
      var e := bal[|bal| - 1];
      assert DistinctIds(p);
      CreditorsDistinct(p);
      assert e.id !in Ids(p);
      if e.amount > 1 {
        SnocDistinct(Creditors(p), e);
        IdsConcat(Creditors(p), [e]);
      }
      assert bal == p + [e];
      IdsConcat(p, [e]);
    }
  }

  /** With one balance per id, the two lists have no id in common, neither
      repeats an id, and an id whose balance is within one cent of zero is in
      neither. */
  lemma PartitionDisjoint(bal: seq<Entry>)
    requires DistinctIds(bal)
    ensures DistinctIds(Debtors(bal)) && DistinctIds(Creditors(bal))
    ensures Ids(Debtors(bal)) !! Ids(Creditors(bal))
    ensures forall e :: e in bal && -1 <= e.amount <= 1 ==> e.id !in Ids(Debtors(bal)) && e.id !in Ids(Creditors(bal))
  {
    DebtorsDistinct(bal);
    CreditorsDistinct(bal);
    DebtorsExactly(bal);
    CreditorsExactly(bal);
    forall id | id in Ids(Debtors(bal)) ensures id !in Ids(Creditors(bal)) {
      var d :| d in Debtors(bal) && d.id == id;
      if id in Ids(Creditors(bal)) {
        var c :| c in Creditors(bal) && c.id == id;
        SameIdSameEntry(bal, Entry(d.id, -d.amount), c);
      }
    }
    forall e | e in bal && -1 <= e.amount <= 1
      ensures e.id !in Ids(Debtors(bal)) && e.id !in Ids(Creditors(bal))
    {
      if e.id in Ids(Debtors(bal)) {
        var d :| d in Debtors(bal) && d.id == e.id;
        SameIdSameEntry(bal, Entry(d.id, -d.amount), e);
      }
      if e.id in Ids(Creditors(bal)) {
        var c :| c in Creditors(bal) && c.id == e.id;
        SameIdSameEntry(bal, c, e);
      }
    }
  }

  lemma SameIdSameEntry(es: seq<Entry>, x: Entry, y: Entry)
    requires DistinctIds(es) && x in es && y in es && x.id == y.id
    ensures x == y
  {
    var i :| 0 <= i < |es| && es[i] == x;
    var j :| 0 <= j < |es| && es[j] == y;
    assert i == j;
  }

  /** The balances' sum splits into credit, minus debt, plus what the band holds. */
  lemma {:induction false} PartitionSum(bal: seq<Entry>)
    ensures Sum(bal) == Sum(Creditors(bal)) - Sum(Debtors(bal)) + Sum(Band(bal))
    decreases |bal|
  {
    if bal != [] {
      var p := bal[..|bal| - 1];
      var e := bal[|bal| - 1];
      PartitionSum(p);
      assert Sum(bal) == Sum(p) + e.amount by {
        assert bal == p + [e];
        SumSnoc(p, e);
      }
      if e.amount < -1 {
        assert Sum(Debtors(bal)) == Sum(Debtors(p)) - e.amount by {
          SumSnoc(Debtors(p), Entry(e.id, -e.amount));
        }
        assert Creditors(bal) == Creditors(p) && Band(bal) == Band(p);
      } else if e.amount > 1 {
        assert Sum(Creditors(bal)) == Sum(Creditors(p)) + e.amount by {
          SumSnoc(Creditors(p), e);
        }
        assert Debtors(bal) == Debtors(p) && Band(bal) == Band(p);
      } else {
        assert Sum(Band(bal)) == Sum(Band(p)) + e.amount by {
          SumSnoc(Band(p), e);
        }
        assert Debtors(bal) == Debtors(p) && Creditors(bal) == Creditors(p);
      }
    }
  }

  lemma SumSnoc(s: seq<Entry>, e: Entry)
    ensures Sum(s + [e]) == Sum(s) + e.amount
  {
    SumAppend(s, [e]);
  }

  /** Each balance in the band is within a cent of zero, so together they are
      within one cent per entry. */
  lemma {:induction false} BandSumBound(bal: seq<Entry>)
    ensures -|Band(bal)| <= Sum(Band(bal)) <= |Band(bal)|
    decreases |bal|
  {
    if bal != [] {
      var p := bal[..|bal| - 1];
      var e := bal[|bal| - 1];
      BandSumBound(p);
      SumAppend(Band(p), if -1 <= e.amount <= 1 then [e] else []);
    }
  }

  /** `Object.entries(balances).forEach(...)` pushing into the two lists. */
  method Split(bal: seq<Entry>) returns (debtors: seq<Entry>, creditors: seq<Entry>)
    ensures debtors == Debtors(bal) && creditors == Creditors(bal)
  {
    debtors, creditors := [], [];
    for i := 0 to |bal|
      invariant debtors == Debtors(bal[..i]) && creditors == Creditors(bal[..i])
    {
      assert bal[..i + 1][..i] == bal[..i];
      var e := bal[i];
      if e.amount < -1 {
        debtors := debtors + [Entry(e.id, -e.amount)];
      }
      if e.amount > 1 {
        creditors := creditors + [e];
      }
    }
    assert bal[..|bal|] == bal;
  }
}
