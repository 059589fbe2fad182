/**
  The last phase of `calcSettlements`: two indices walk the sorted debtors and
  creditors; each step moves `min(debt, credit)` from the current debtor to the
  current creditor, records it when it exceeds one cent, and advances past
  whichever side has dropped below one cent.

  `Greedy` lists every transfer the loop makes, recorded or not; `Recorded`
  keeps those the panel shows and names their parties. `MatchGreedy` is the
  loop over the two arrays, proved to produce `Recorded(Greedy(...))`.
 */
module Matching {
  import opened LedgerTypes

  /** One step of the loop: `from` pays `amount` to `to`. */
  datatype Transfer = Transfer(from: UserId, to: UserId, amount: int)

  /** `Math.min` */
  function Min(a: int, b: int): int
  {
    if a <= b then a else b
  }

  /** Every transfer the loop makes, starting from the current debtor
      `ds[0]` and the current creditor `cs[0]`. A side whose remainder drops
      below one cent is passed over; the other keeps its remainder. */
  function Greedy(ds: seq<Entry>, cs: seq<Entry>): (ts: seq<Transfer>)
    ensures |ts| <= |ds| + |cs|
    decreases |ds| + |cs|
  {
    if ds == [] || cs == [] then []
    else
      var t := Min(ds[0].amount, cs[0].amount);
      [Transfer(ds[0].id, cs[0].id, t)] + Greedy(Remainder(ds, t), Remainder(cs, t))
  }

  /** The rows left after `t` is taken from the head row: the head keeps its
      remainder unless that has dropped below one cent, when it is passed over. */
  function Remainder(s: seq<Entry>, t: int): (r: seq<Entry>)
    requires s != []
    ensures |r| <= |s|
    ensures s[0].amount <= t ==> |r| < |s|
  {
    if s[0].amount - t < 1 then s[1..] else [Entry(s[0].id, s[0].amount - t)] + s[1..]
  }

  /** `members.find(m => m.user_id === id)?.username || 'Unknown'` */
  function NameOf(members: seq<Member>, id: UserId): string
  {
    if members == [] then "Unknown"
    else if members[0].userId == id then (if members[0].username == "" then "Unknown" else members[0].username)
    else NameOf(members[1..], id)
  }

  /** The name shown is never empty: it is the username of the first member
      with that id, or "Unknown" when there is no such member or its username
      is empty. */
  lemma {:induction false} NameOfMeans(members: seq<Member>, id: UserId)
    ensures NameOf(members, id) != ""
    ensures (forall m :: m in members ==> m.userId != id) ==> NameOf(members, id) == "Unknown"
    ensures forall k :: 0 <= k < |members| && members[k].userId == id
                        && (forall j :: 0 <= j < k ==> members[j].userId != id)
                        ==> NameOf(members, id) == (if members[k].username == "" then "Unknown" else members[k].username)
  {
    if members != [] && members[0].userId != id {
      NameOfMeans(members[1..], id);
      assert forall k :: 1 <= k < |members| ==> members[k] == members[1..][k - 1];
      assert forall m :: m in members[1..] ==> m in members;
    }
  }

  /** The settlement the panel lists for one transfer: none for a transfer of
      one cent or less, otherwise the transfer with its parties' names. */
  function Shown(t: Transfer, members: seq<Member>): seq<Settlement>
  {
    if t.amount > 1 then [Settlement(t.from, NameOf(members, t.from), t.to, NameOf(members, t.to), t.amount)] else []
  }

  /** The settlements the panel lists: the transfers above one cent, named. */
  function Recorded(ts: seq<Transfer>, members: seq<Member>): seq<Settlement>
  {
    if ts == [] then [] else Shown(ts[0], members) + Recorded(ts[1..], members)
  }

  /** What `id` pays over a list of transfers. */
  function PaidBy(ts: seq<Transfer>, id: UserId): int
  {
    if ts == [] then 0 else (if ts[0].from == id then ts[0].amount else 0) + PaidBy(ts[1..], id)
  }

  /** What `id` receives over a list of transfers. */
  function ReceivedBy(ts: seq<Transfer>, id: UserId): int
  {
    if ts == [] then 0 else (if ts[0].to == id then ts[0].amount else 0) + ReceivedBy(ts[1..], id)
  }

  predicate Positive(es: seq<Entry>)
  {
    forall i :: 0 <= i < |es| ==> es[i].amount > 0
  }

  // ---------------------------------------------------------------------------
  // Shape of the run

  /** Each step passes over at least one side, so a run over `n` debtors and
      `m` creditors makes at most `n + m - 1` transfers, and none when either
      list is empty. */
  lemma {:induction false} GreedyCount(ds: seq<Entry>, cs: seq<Entry>)
    ensures ds == [] || cs == [] ==> Greedy(ds, cs) == []
    ensures ds != [] && cs != [] ==> |Greedy(ds, cs)| <= |ds| + |cs| - 1
    decreases |ds| + |cs|
  {
    if ds != [] && cs != [] {
      var t := Min(ds[0].amount, cs[0].amount);
      var d := ds[0].amount - t;
      var c := cs[0].amount - t;
      var ds', cs' := Remainder(ds, t), Remainder(cs, t);
      GreedyCount(ds', cs');
    }
  }

  /** Every transfer goes from a debtor to a creditor. */
  lemma {:induction false} GreedyEndpoints(ds: seq<Entry>, cs: seq<Entry>)
    ensures forall t :: t in Greedy(ds, cs) ==> t.from in Ids(ds) && t.to in Ids(cs)
    decreases |ds| + |cs|
  {
    if ds != [] && cs != [] {
      var t := Min(ds[0].amount, cs[0].amount);
      var d := ds[0].amount - t;
      var c := cs[0].amount - t;
      var ds', cs' := Remainder(ds, t), Remainder(cs, t);
      GreedyEndpoints(ds', cs');
      IdsConcat([ds[0]], ds[1..]);
      IdsConcat([Entry(ds[0].id, d)], ds[1..]);
      IdsConcat([cs[0]], cs[1..]);
      IdsConcat([Entry(cs[0].id, c)], cs[1..]);
      assert ds == [ds[0]] + ds[1..];
      assert cs == [cs[0]] + cs[1..];
    }
  }

  /** From positive amounts, every transfer is at least one cent, so the
      remainders never go negative and a transfer left unrecorded is exactly
      one cent. */
  lemma {:induction false} GreedyAmounts(ds: seq<Entry>, cs: seq<Entry>)
    requires Positive(ds) && Positive(cs)
    ensures forall t :: t in Greedy(ds, cs) ==> t.amount >= 1
    decreases |ds| + |cs|
  {
    if ds != [] && cs != [] {
      var t := Min(ds[0].amount, cs[0].amount);
      var d := ds[0].amount - t;
      var c := cs[0].amount - t;
      var ds', cs' := Remainder(ds, t), Remainder(cs, t);
      GreedyAmounts(ds', cs');
    }
  }

  // ---------------------------------------------------------------------------
  // Accounting: nobody pays or receives more than their amount, and a
  // balanced run clears everyone

  lemma {:induction false} SumAtLeast(es: seq<Entry>, k: int)
    requires Positive(es) && 0 <= k < |es|
    ensures Sum(es) >= es[k].amount
  {
    if k > 0 {
      SumAtLeast(es[1..], k - 1);
    } else if |es| > 1 {
      SumAtLeast(es[1..], 0);
    }
  }

  lemma {:induction false} PaidByAbsent(ts: seq<Transfer>, id: UserId)
    requires forall t :: t in ts ==> t.from != id
    ensures PaidBy(ts, id) == 0
  {
    if ts != [] {
      PaidByAbsent(ts[1..], id);
    }
  }

  lemma {:induction false} ReceivedByAbsent(ts: seq<Transfer>, id: UserId)
    requires forall t :: t in ts ==> t.to != id
    ensures ReceivedBy(ts, id) == 0
  {
    if ts != [] {
      ReceivedByAbsent(ts[1..], id);
    }
  }

  /** Taking `t` from a positive head row that holds at least `t` keeps the rows
      positive and their keys distinct, lowers the total by `t`, and leaves
      every later row where it was, one place earlier when the head is passed
      over. */
  lemma RemainderFacts(s: seq<Entry>, t: int)
    requires s != [] && Positive(s) && t <= s[0].amount
    ensures Positive(Remainder(s, t))
    ensures Sum(Remainder(s, t)) == Sum(s) - t
    ensures DistinctIds(s) ==> DistinctIds(Remainder(s, t))
    ensures s[0].amount <= t ==> forall j :: 1 <= j < |s| ==> Remainder(s, t)[j - 1] == s[j]
    ensures s[0].amount > t ==> |Remainder(s, t)| == |s| && Remainder(s, t)[0].id == s[0].id
                                && forall j :: 1 <= j < |s| ==> Remainder(s, t)[j] == s[j]
  {
    assert Sum(s) == s[0].amount + Sum(s[1..]);
  }

  /** The first transfer of a run, then the rest of it. */
  lemma GreedyHead(ds: seq<Entry>, cs: seq<Entry>, x: UserId)
    requires ds != [] && cs != []
    ensures var t := Min(ds[0].amount, cs[0].amount);
      var rest := Greedy(Remainder(ds, t), Remainder(cs, t));
      PaidBy(Greedy(ds, cs), x) == (if ds[0].id == x then t else 0) + PaidBy(rest, x)
      && ReceivedBy(Greedy(ds, cs), x) == (if cs[0].id == x then t else 0) + ReceivedBy(rest, x)
  {
    var t := Min(ds[0].amount, cs[0].amount);
    var rest := Greedy(Remainder(ds, t), Remainder(cs, t));
    assert ([Transfer(ds[0].id, cs[0].id, t)] + rest)[1..] == rest;
  }

  /** A row passed over never appears again: with distinct keys, the rest of the
      run has no transfer from the settled debtor. */
  lemma DebtorPassedOver(ds: seq<Entry>, cs: seq<Entry>, t: int)
    requires ds != [] && cs != [] && DistinctIds(ds) && ds[0].amount <= t
    ensures PaidBy(Greedy(Remainder(ds, t), Remainder(cs, t)), ds[0].id) == 0
  {
    var ds', cs' := Remainder(ds, t), Remainder(cs, t);
    assert ds' == ds[1..];
    GreedyEndpoints(ds', cs');
    assert ds[0].id !in Ids(ds') by {
      forall e | e in ds' ensures e.id != ds[0].id {
        var j :| 0 <= j < |ds'| && ds'[j] == e;
        assert ds'[j] == ds[j + 1];
      }
    }
    PaidByAbsent(Greedy(ds', cs'), ds[0].id);
  }

  /** With distinct keys, the rest of the run has no transfer to a settled
      creditor. */
  lemma CreditorPassedOver(ds: seq<Entry>, cs: seq<Entry>, t: int)
    requires ds != [] && cs != [] && DistinctIds(cs) && cs[0].amount <= t
    ensures ReceivedBy(Greedy(Remainder(ds, t), Remainder(cs, t)), cs[0].id) == 0
  {
    var ds', cs' := Remainder(ds, t), Remainder(cs, t);
    assert cs' == cs[1..];
    GreedyEndpoints(ds', cs');
    assert cs[0].id !in Ids(cs') by {
      forall e | e in cs' ensures e.id != cs[0].id {
        var j :| 0 <= j < |cs'| && cs'[j] == e;
        assert cs'[j] == cs[j + 1];
      }
    }
    ReceivedByAbsent(Greedy(ds', cs'), cs[0].id);
  }

  /** With no negative transfers, what a party pays or receives in total is at
      least any single transfer of theirs. */
  lemma {:induction false} TransferWithinTotal(ts: seq<Transfer>, t: Transfer)
    requires forall u :: u in ts ==> u.amount >= 0
    requires t in ts
    ensures t.amount <= PaidBy(ts, t.from) && t.amount <= ReceivedBy(ts, t.to)
  {
    NonNegativeTotals(ts[1..], t.from, t.to);
    if ts[0] != t {
      TransferWithinTotal(ts[1..], t);
    }
  }

  lemma {:induction false} NonNegativeTotals(ts: seq<Transfer>, x: UserId, y: UserId)
    requires forall u :: u in ts ==> u.amount >= 0
    ensures PaidBy(ts, x) >= 0 && ReceivedBy(ts, y) >= 0
  {
    if ts != [] {
      NonNegativeTotals(ts[1..], x, y);
    }
  }

  /** A debtor pays at most its debt; when the debts do not exceed the credits
      it pays its whole debt. */
  lemma {:induction false} DebtorAccounts(ds: seq<Entry>, cs: seq<Entry>, k: int)
    requires Positive(ds) && Positive(cs) && DistinctIds(ds) && 0 <= k < |ds|
    ensures PaidBy(Greedy(ds, cs), ds[k].id) <= ds[k].amount
    ensures Sum(ds) <= Sum(cs) ==> PaidBy(Greedy(ds, cs), ds[k].id) == ds[k].amount
    decreases |ds| + |cs|
  {
    var x := ds[k].id;
    if cs == [] {
      SumAtLeast(ds, k);
    } else {
      var t := Min(ds[0].amount, cs[0].amount);
      var ds', cs' := Remainder(ds, t), Remainder(cs, t);
      GreedyHead(ds, cs, x);
      assert Positive(cs') && Sum(cs') == Sum(cs) - t by {
        RemainderFacts(cs, t);
      }
      assert Positive(ds') && Sum(ds') == Sum(ds) - t && DistinctIds(ds') by {
        RemainderFacts(ds, t);
      }
      if k == 0 {
        if ds[0].amount <= t {
          DebtorPassedOver(ds, cs, t);
        } else {
          assert ds'[0] == Entry(x, ds[0].amount - t);
          DebtorAccounts(ds', cs', 0);
        }
      } else {
        assert ds[0].id != x;
        if ds[0].amount <= t {
          assert ds'[k - 1] == ds[k] by {
            RemainderFacts(ds, t);
          }
          DebtorAccounts(ds', cs', k - 1);
        } else {
          assert |ds'| == |ds| && ds'[k] == ds[k] by {
            RemainderFacts(ds, t);
          }
          DebtorAccounts(ds', cs', k);
        }
      }
    }
  }

  /** A creditor receives at most its credit; when the credits do not exceed
      the debts it receives its whole credit. */
  lemma {:induction false} CreditorAccounts(ds: seq<Entry>, cs: seq<Entry>, k: int)
    requires Positive(ds) && Positive(cs) && DistinctIds(cs) && 0 <= k < |cs|
    ensures ReceivedBy(Greedy(ds, cs), cs[k].id) <= cs[k].amount
    ensures Sum(cs) <= Sum(ds) ==> ReceivedBy(Greedy(ds, cs), cs[k].id) == cs[k].amount
    decreases |ds| + |cs|
  {
    var x := cs[k].id;
    if ds == [] {
      SumAtLeast(cs, k);
    } else {
      var t := Min(ds[0].amount, cs[0].amount);
      var ds', cs' := Remainder(ds, t), Remainder(cs, t);
      GreedyHead(ds, cs, x);
      assert Positive(ds') && Sum(ds') == Sum(ds) - t by {
        RemainderFacts(ds, t);
      }
      assert Positive(cs') && Sum(cs') == Sum(cs) - t && DistinctIds(cs') by {
        RemainderFacts(cs, t);
      }
      if k == 0 {
        if cs[0].amount <= t {
          CreditorPassedOver(ds, cs, t);
        } else {
          assert cs'[0] == Entry(x, cs[0].amount - t);
          CreditorAccounts(ds', cs', 0);
        }
      } else {
        assert cs[0].id != x;
        if cs[0].amount <= t {
          assert cs'[k - 1] == cs[k] by {
            RemainderFacts(cs, t);
          }
          CreditorAccounts(ds', cs', k - 1);
        } else {
          assert |cs'| == |cs| && cs'[k] == cs[k] by {
            RemainderFacts(cs, t);
          }
          CreditorAccounts(ds', cs', k);
        }
      }
    }
  }

  /** The rows the loop stops at: it runs until one of the two lists is used up. */
  function Leftover(ds: seq<Entry>, cs: seq<Entry>): (seq<Entry>, seq<Entry>)
    decreases |ds| + |cs|
  {
    if ds == [] || cs == [] then (ds, cs)
    else
      var t := Min(ds[0].amount, cs[0].amount);
      Leftover(Remainder(ds, t), Remainder(cs, t))
  }

  /** From positive amounts, the loop stops with one list used up, the other
      still positive, and the difference between total debt and total credit
      unchanged, since every step takes the same amount from both sides. */
  lemma {:induction false} LeftoverFacts(ds: seq<Entry>, cs: seq<Entry>)
    requires Positive(ds) && Positive(cs)
    ensures Leftover(ds, cs).0 == [] || Leftover(ds, cs).1 == []
    ensures Positive(Leftover(ds, cs).0) && Positive(Leftover(ds, cs).1)
    ensures Sum(Leftover(ds, cs).0) - Sum(Leftover(ds, cs).1) == Sum(ds) - Sum(cs)
    decreases |ds| + |cs|
  {
    if ds != [] && cs != [] {
      var t := Min(ds[0].amount, cs[0].amount);
      RemainderFacts(ds, t);
      RemainderFacts(cs, t);
      LeftoverFacts(Remainder(ds, t), Remainder(cs, t));
    }
  }

  /** A balanced run in which a creditor is owed 2 cents yet is named in no
      listed settlement: `y` receives two 1-cent transfers, which the loop
      deducts but does not list. */
  lemma UnlistedCreditorRun()
    ensures var ds, cs := [Entry("a", 3), Entry("b", 3)], [Entry("x", 2), Entry("y", 2), Entry("z", 2)];
      Greedy(ds, cs) == [Transfer("a", "x", 2), Transfer("a", "y", 1), Transfer("b", "y", 1), Transfer("b", "z", 2)]
      && ReceivedBy(Greedy(ds, cs), "y") == 2
      && Recorded(Greedy(ds, cs), []) == [Settlement("a", "Unknown", "x", "Unknown", 2), Settlement("b", "Unknown", "z", "Unknown", 2)]
  {
    var ds, cs := [Entry("a", 3), Entry("b", 3)], [Entry("x", 2), Entry("y", 2), Entry("z", 2)];
    var ds1, cs1 := [Entry("a", 1), Entry("b", 3)], [Entry("y", 2), Entry("z", 2)];
    var ds2, cs2 := [Entry("b", 3)], [Entry("y", 1), Entry("z", 2)];
    var ds3, cs3 := [Entry("b", 2)], [Entry("z", 2)];
    assert Remainder(ds, 2) == ds1 && Remainder(cs, 2) == cs1;
    assert Remainder(ds1, 1) == ds2 && Remainder(cs1, 1) == cs2;
    assert Remainder(ds2, 1) == ds3 && Remainder(cs2, 1) == cs3;
    assert Remainder(ds3, 2) == [] && Remainder(cs3, 2) == [];
    var t4 := [Transfer("b", "z", 2)];
    var t3 := [Transfer("b", "y", 1)] + t4;
    var t2 := [Transfer("a", "y", 1)] + t3;
    var t1 := [Transfer("a", "x", 2)] + t2;
    assert Greedy(ds3, cs3) == t4;
    assert Greedy(ds2, cs2) == t3;
    assert Greedy(ds1, cs1) == t2;
    assert Greedy(ds, cs) == t1;
    assert t1[1..] == t2 && t2[1..] == t3 && t3[1..] == t4 && t4[1..] == [];
    assert ReceivedBy(t4, "y") == 0;
    assert ReceivedBy(t3, "y") == 1;
    assert ReceivedBy(t2, "y") == 2;
    assert ReceivedBy(t1, "y") == 2;
    assert Recorded(t4, []) == [Settlement("b", "Unknown", "z", "Unknown", 2)];
    assert Recorded(t3, []) == Recorded(t4, []);
    assert Recorded(t2, []) == Recorded(t4, []);
  }

  /** When total debt equals total credit, the loop ends with both lists used up. */
  lemma BalancedRunExhausts(ds: seq<Entry>, cs: seq<Entry>)
    requires Positive(ds) && Positive(cs) && Sum(ds) == Sum(cs)
    ensures Leftover(ds, cs) == ([], [])
  {
    LeftoverFacts(ds, cs);
    var (l, r) := Leftover(ds, cs);
    if l != [] {
      SumAtLeast(l, 0);
    }
    if r != [] {
      SumAtLeast(r, 0);
    }
  }

  // ---------------------------------------------------------------------------
  // What is recorded

  /** The panel lists at most as many settlements as there are transfers; each
      is above one cent, carries its parties' display names and is one of the
      transfers. */
  lemma {:induction false} RecordedFacts(ts: seq<Transfer>, members: seq<Member>)
    ensures |Recorded(ts, members)| <= |ts|
    ensures forall s :: s in Recorded(ts, members) ==>
      s.amount > 1 && Transfer(s.from, s.to, s.amount) in ts
      && s.fromName == NameOf(members, s.from) && s.toName == NameOf(members, s.to)
  {
    if ts != [] {
      RecordedFacts(ts[1..], members);
      assert ts == [ts[0]] + ts[1..];
    }
  }

  lemma RecordedConcat(a: seq<Transfer>, b: seq<Transfer>, members: seq<Member>)
    ensures Recorded(a + b, members) == Recorded(a, members) + Recorded(b, members)
  {
    if a != [] {
      RecordedConcat(a[1..], b, members);
      assert (a + b)[0] == a[0];
      assert (a + b)[1..] == a[1..] + b;
      Regroup(Shown(a[0], members), Recorded(a[1..], members), Recorded(b, members),
            Recorded(a, members), Recorded(a + b, members));
    } else {
      assert a + b == b;
    }
  }

  // ---------------------------------------------------------------------------
  // The loop

  /** One round of the loop on the specification side: the first transfer,
      then the greedy matching of what remains. */
  lemma GreedyStep(ds: seq<Entry>, cs: seq<Entry>, members: seq<Member>)
    requires ds != [] && cs != []
    ensures var t := Min(ds[0].amount, cs[0].amount);
      Recorded(Greedy(ds, cs), members)
      == Shown(Transfer(ds[0].id, cs[0].id, t), members)
         + Recorded(Greedy(Remainder(ds, t), Remainder(cs, t)), members)
  {
    var t := Min(ds[0].amount, cs[0].amount);
    RecordedConcat([Transfer(ds[0].id, cs[0].id, t)], Greedy(Remainder(ds, t), Remainder(cs, t)), members);
  }

  /** One pass of the loop body: the settlement it pushes (if the transfer is
      above one cent), the transfer taken off the current debtor and creditor
      in place, and the indices moved past a row once it is below one cent.
      The ghost `D` and `C` are the arrays' contents on entry: stating the
      contract over them rather than over `old(debtors[..])` lets the loop's
      proof match it against `Round` directly, which keeps that proof fast. */
  method Step(debtors: array<Entry>, creditors: array<Entry>, members: seq<Member>, di: int, ci: int,
               ghost D: seq<Entry>, ghost C: seq<Entry>)
    returns (shown: seq<Settlement>, transfer: int, di': int, ci': int)
    requires debtors != creditors && 0 <= di < debtors.Length && 0 <= ci < creditors.Length
    requires D == debtors[..] && C == creditors[..]
    modifies debtors, creditors
    ensures transfer == Min(D[di].amount, C[ci].amount)
    ensures shown == Shown(Transfer(D[di].id, C[ci].id, transfer), members)
    ensures debtors[..] == D[di := Entry(D[di].id, D[di].amount - transfer)]
    ensures creditors[..] == C[ci := Entry(C[ci].id, C[ci].amount - transfer)]
    ensures di' == if D[di].amount - transfer < 1 then di + 1 else di
    ensures ci' == if C[ci].amount - transfer < 1 then ci + 1 else ci
  {
    var debtor, creditor := debtors[di], creditors[ci];
    transfer := Min(debtor.amount, creditor.amount);
    shown := [];
    if transfer > 1 {
      shown := [Settlement(debtor.id, NameOf(members, debtor.id), creditor.id, NameOf(members, creditor.id), transfer)];
    }
    Deduct(debtors, creditors, di, ci, transfer);
    di', ci' := di, ci;
    if debtors[di].amount < 1 {
      di' := di + 1;
    }
    if creditors[ci].amount < 1 {
      ci' := ci + 1;
    }
  }

  /** Takes the transfer off the current debtor's and creditor's amounts in
      place; nothing else changes. */
  method Deduct(debtors: array<Entry>, creditors: array<Entry>, di: int, ci: int, transfer: int)
    requires debtors != creditors && 0 <= di < debtors.Length && 0 <= ci < creditors.Length
    modifies debtors, creditors
    ensures debtors[..] == old(debtors[..])[di := Entry(old(debtors[di]).id, old(debtors[di]).amount - transfer)]
    ensures creditors[..] == old(creditors[..])[ci := Entry(old(creditors[ci]).id, old(creditors[ci]).amount - transfer)]
  {
    debtors[di] := Entry(debtors[di].id, debtors[di].amount - transfer);
    creditors[ci] := Entry(creditors[ci].id, creditors[ci].amount - transfer);
  }

  /** After `t` is taken from the row at `i`, the index moves on once that row
      is below one cent; what is left from there on is the remainder. */
  lemma Advance(S: seq<Entry>, i: int, t: int, i': int)
    requires 0 <= i < |S|
    requires i' == if S[i].amount - t < 1 then i + 1 else i
    ensures S[i := Entry(S[i].id, S[i].amount - t)][i'..] == Remainder(S[i..], t)
  {
  }

  /** Reassociates the settlement lists around one round; kept as its own
      lemma so that `Round` proves it without its other facts in scope. */
  lemma Regroup(before: seq<Settlement>, shown: seq<Settlement>, rest: seq<Settlement>, after: seq<Settlement>, goal: seq<Settlement>)
    requires before + (shown + rest) == goal && after == before + shown
    ensures after + rest == goal
  {
  }

  /** One round of the loop keeps its invariant: what has been recorded, followed
      by what the rest of the run records, is the whole run's record. */
  lemma Round(D: seq<Entry>, C: seq<Entry>, di: int, ci: int, members: seq<Member>,
              before: seq<Settlement>, goal: seq<Settlement>,
              t: int, D': seq<Entry>, C': seq<Entry>, di': int, ci': int, after: seq<Settlement>)
    requires 0 <= di < |D| && 0 <= ci < |C|
    requires before + Recorded(Greedy(D[di..], C[ci..]), members) == goal
    requires t == Min(D[di].amount, C[ci].amount)
    requires D' == D[di := Entry(D[di].id, D[di].amount - t)]
    requires C' == C[ci := Entry(C[ci].id, C[ci].amount - t)]
    requires di' == if D[di].amount - t < 1 then di + 1 else di
    requires ci' == if C[ci].amount - t < 1 then ci + 1 else ci
    requires after == before + Shown(Transfer(D[di].id, C[ci].id, t), members)
    ensures after + Recorded(Greedy(D'[di'..], C'[ci'..]), members) == goal
    ensures Leftover(D'[di'..], C'[ci'..]) == Leftover(D[di..], C[ci..])
  {
    var ds, cs := D[di..], C[ci..];
    var ds', cs' := Remainder(ds, t), Remainder(cs, t);
    var shown := Shown(Transfer(D[di].id, C[ci].id, t), members);
    assert D'[di'..] == ds' by {
      Advance(D, di, t, di');
    }
    assert C'[ci'..] == cs' by {
      Advance(C, ci, t, ci');
    }
    assert Recorded(Greedy(ds, cs), members) == shown + Recorded(Greedy(ds', cs'), members) by {
      assert ds[0] == D[di] && cs[0] == C[ci];
      GreedyStep(ds, cs, members);
    }
    assert Leftover(ds, cs) == Leftover(ds', cs') by {
      assert ds[0] == D[di] && cs[0] == C[ci];
    }
    Regroup(before, shown, Recorded(Greedy(ds', cs'), members), after, goal);
  }

  /** Where the loop stops, the rows not yet used up are what `Leftover`
      predicts, and with balanced positive totals nothing is left. */
  lemma StopsAtLeftover(D: seq<Entry>, C: seq<Entry>, di: int, ci: int, D0: seq<Entry>, C0: seq<Entry>)
    requires 0 <= di <= |D| && 0 <= ci <= |C| && (di == |D| || ci == |C|)
    requires Leftover(D[di..], C[ci..]) == Leftover(D0, C0)
    ensures (D[di..], C[ci..]) == Leftover(D0, C0)
    ensures Positive(D0) && Positive(C0) && Sum(D0) == Sum(C0) ==> di == |D| && ci == |C|
  {
    assert D[di..] == [] || C[ci..] == [];
    if Positive(D0) && Positive(C0) && Sum(D0) == Sum(C0) {
      BalancedRunExhausts(D0, C0);
    }
  }

  /** The `while (di < debtors.length && ci < creditors.length)` loop, which
      decrements the current debtor's and creditor's amounts in place. */
  method MatchGreedy(debtors: array<Entry>, creditors: array<Entry>, members: seq<Member>)
    returns (settlements: seq<Settlement>, ghost dEnd: int, ghost cEnd: int)
    requires debtors != creditors
    modifies debtors, creditors
    ensures settlements == Recorded(Greedy(old(debtors[..]), old(creditors[..])), members)
    ensures 0 <= dEnd <= debtors.Length && 0 <= cEnd <= creditors.Length
    ensures dEnd == debtors.Length || cEnd == creditors.Length
    ensures (debtors[dEnd..], creditors[cEnd..]) == Leftover(old(debtors[..]), old(creditors[..]))
    ensures Positive(old(debtors[..])) && Positive(old(creditors[..]))
      && Sum(old(debtors[..])) == Sum(old(creditors[..]))
      ==> dEnd == debtors.Length && cEnd == creditors.Length
  {
    settlements := [];
    var di, ci := 0, 0;
    ghost var D, C := debtors[..], creditors[..];
    ghost var D0, C0 := D, C;
    ghost var goal := Recorded(Greedy(D, C), members);
    assert D[0..] == D && C[0..] == C;
    while di < debtors.Length && ci < creditors.Length
      invariant 0 <= di <= debtors.Length && 0 <= ci <= creditors.Length
      invariant D == debtors[..] && C == creditors[..]
      invariant settlements + Recorded(Greedy(D[di..], C[ci..]), members) == goal
      invariant Leftover(D[di..], C[ci..]) == Leftover(D0, C0)
      decreases debtors.Length - di + creditors.Length - ci
    {
      ghost var di0, ci0, before := di, ci, settlements;
      var shown, transfer;
      shown, transfer, di, ci := Step(debtors, creditors, members, di, ci, D, C);
      settlements := settlements + shown;
      Round(D, C, di0, ci0, members, before, goal, transfer, debtors[..], creditors[..], di, ci, settlements);
      D, C := debtors[..], creditors[..];
    }
    dEnd, cEnd := di, ci;
    StopsAtLeftover(D, C, di, ci, D0, C0);
    assert debtors[di..] == D[di..] && creditors[ci..] == C[ci..];
  }
}
