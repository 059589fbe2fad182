/**
  Records shared by the settle-up panel and the add-expense form, with every
  amount in integer cents, and the string-keyed records (`Record<string, number>`)
  that the panel fills in step by step, modelled as insertion-ordered lists of
  `{ id, amount }` rows.
 */
module LedgerTypes {

  type UserId = string
  type Currency = string

  /** A trip member as the roster supplies it. */
  datatype Member = Member(userId: UserId, username: string)

  /** One participant's owed portion of an expense. */
  datatype Share = Share(userId: UserId, amount: int)

  /** A logged expense; an expense without a share list has `shares == []`. */
  datatype Expense = Expense(id: string, currency: Currency, totalAmount: int, paidBy: UserId, shares: seq<Share>)

  /** A `{ id, amount }` row: a balance, debt or credit keyed by user id, or a
      per-currency total keyed by currency code. */
  datatype Entry = Entry(id: string, amount: int)

  /** One transfer shown to the user: `from` pays `amount` to `to`. */
  datatype Settlement = Settlement(from: UserId, fromName: string, to: UserId, toName: string, amount: int)

  predicate Distinct<T(==)>(s: seq<T>)
  {
    forall i, j :: 0 <= i < j < |s| ==> s[i] != s[j]
  }

  /** The keys of a record. */
  function Ids(es: seq<Entry>): set<string>
  {
    set e | e in es :: e.id
  }

  /** No key occurs twice, as in a JavaScript object. */
  predicate DistinctIds(es: seq<Entry>)
  {
    forall i, j :: 0 <= i < j < |es| ==> es[i].id != es[j].id
  }

  function Sum(es: seq<Entry>): int
  {
    if es == [] then 0 else es[0].amount + Sum(es[1..])
  }

  /** `record[id] || 0`: the value stored under `id`, or 0 when there is none. */
  function Get(es: seq<Entry>, id: string): int
  {
    if es == [] then 0
    else if es[0].id == id then es[0].amount
    else Get(es[1..], id)
  }

  /** `record[id] = v`: an existing key keeps its place, a new key goes last. */
  function Put(es: seq<Entry>, id: string, v: int): seq<Entry>
  {
    if es == [] then [Entry(id, v)]
    else if es[0].id == id then [Entry(id, v)] + es[1..]
    else [es[0]] + Put(es[1..], id, v)
  }

  /** `record[id] = (record[id] || 0) + delta`. */
  function Bump(es: seq<Entry>, id: string, delta: int): seq<Entry>
  {
    Put(es, id, Get(es, id) + delta)
  }

  /** Bumping a key the record does not hold appends it with the delta. */
  lemma {:induction false} BumpNew(es: seq<Entry>, id: string, delta: int)
    requires forall k :: 0 <= k < |es| ==> es[k].id != id
    ensures Bump(es, id, delta) == es + [Entry(id, delta)]
  {
    if es != [] {
      BumpNew(es[1..], id, delta);
      assert es == [es[0]] + es[1..];
    }
  }

  lemma {:induction false} PutGet(es: seq<Entry>, id: string, v: int, k: string)
    ensures Get(Put(es, id, v), k) == if k == id then v else Get(es, k)
  {
    if es != [] && es[0].id != id {
      PutGet(es[1..], id, v, k);
    }
  }

  /** Overwriting keeps every key in its place; a new key is appended. */
  lemma {:induction false} PutShape(es: seq<Entry>, id: string, v: int)
    ensures id in Ids(es) ==> |Put(es, id, v)| == |es|
    ensures id !in Ids(es) ==> |Put(es, id, v)| == |es| + 1 && Put(es, id, v)[|es|].id == id
    ensures forall j :: 0 <= j < |es| ==> Put(es, id, v)[j].id == es[j].id
  {
    if es != [] {
      assert es[0] in es;
      if es[0].id != id {
        PutShape(es[1..], id, v);
        assert id in Ids(es[1..]) ==> id in Ids(es) by {
          if id in Ids(es[1..]) {
            var e :| e in es[1..] && e.id == id;
            assert e in es;
          }
        }
        assert id in Ids(es) ==> id in Ids(es[1..]) by {
          if id in Ids(es) {
            var e :| e in es && e.id == id;
            assert e != es[0];
            assert e in es[1..];
          }
        }
      }
    }
  }

  lemma PutKeys(es: seq<Entry>, id: string, v: int)
    ensures Ids(Put(es, id, v)) == Ids(es) + {id}
  {
    var r := Put(es, id, v);
    PutShape(es, id, v);
    forall x | x in Ids(es) + {id} ensures x in Ids(r) {
      if x in Ids(es) {
        var e :| e in es && e.id == x;
        var j :| 0 <= j < |es| && es[j] == e;
        assert r[j] in r;
      } else {
        assert r[|es|] in r;
      }
    }
    forall x | x in Ids(r) ensures x in Ids(es) + {id} {
      var e :| e in r && e.id == x;
      var j :| 0 <= j < |r| && r[j] == e;
      if j < |es| {
        assert es[j] in es;
      }
    }
  }

  lemma PutDistinct(es: seq<Entry>, id: string, v: int)
    requires DistinctIds(es)
    ensures DistinctIds(Put(es, id, v))
  {
    var r := Put(es, id, v);
    PutShape(es, id, v);
    if id !in Ids(es) {
      forall i, j | 0 <= i < j < |r| ensures r[i].id != r[j].id {
        if j == |es| {
          assert es[i] in es;
        }
      }
    }
  }

  lemma {:induction false} PutSum(es: seq<Entry>, id: string, v: int)
    ensures Sum(Put(es, id, v)) == Sum(es) - Get(es, id) + v
  {
    if es != [] && es[0].id != id {
      PutSum(es[1..], id, v);
      assert Put(es, id, v)[1..] == Put(es[1..], id, v);
    } else if es != [] {
      assert Put(es, id, v)[1..] == es[1..];
    }
  }

  /** In a record with distinct keys, a row `{ id, amount }` is present exactly
      when `id` is a key whose value is `amount`; an absent key reads as 0. */
  lemma {:induction false} GetMeans(es: seq<Entry>, id: string, v: int)
    requires DistinctIds(es)
    ensures Entry(id, v) in es <==> id in Ids(es) && Get(es, id) == v
    ensures id !in Ids(es) ==> Get(es, id) == 0
  {
    if es != [] {
      assert es[0] in es;
      assert DistinctIds(es[1..]);
      GetMeans(es[1..], id, v);
      assert forall e :: e in es <==> e == es[0] || e in es[1..];
      if es[0].id == id {
        forall e | e in es[1..] ensures e.id != id {
          var j :| 0 <= j < |es[1..]| && es[1..][j] == e;
          assert es[j + 1] == e;
        }
      }
    }
  }

  lemma IdsConcat(a: seq<Entry>, b: seq<Entry>)
    ensures Ids(a + b) == Ids(a) + Ids(b)
  {
    assert forall e :: e in a + b <==> e in a || e in b;
  }

  lemma {:induction false} SumAppend(a: seq<Entry>, b: seq<Entry>)
    ensures Sum(a + b) == Sum(a) + Sum(b)
  {
    if a == [] {
      assert a + b == b;
    } else {
      SumAppend(a[1..], b);
      assert (a + b)[0] == a[0];
      assert (a + b)[1..] == a[1..] + b;
    }
  }

  /** `[...new Set(s)]`: the first occurrence of every element, in order. */
  function Dedup<T(==,!new)>(s: seq<T>): (r: seq<T>)
    ensures Distinct(r)
    ensures forall x :: x in r <==> x in s
    decreases |s|
  {
    if s == [] then []
    else
      var p := Dedup(s[..|s| - 1]);
      assert forall x :: x in s <==> x in s[..|s| - 1] || x == s[|s| - 1];
      if s[|s| - 1] in p then p else p + [s[|s| - 1]]
  }
}
