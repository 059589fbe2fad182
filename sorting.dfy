/**
  `debtors.sort((a, b) => b.amount - a.amount)` and the same for creditors:
  an in-place sort of `{ id, amount }` rows into non-increasing order of
  amount. `Array.prototype.sort` is stable, so rows with equal amounts keep
  their relative order; `SortDesc`, a stable insertion sort, is that order,
  and `SortInPlace` is proved to leave the array holding exactly it.
 */
module Sorting {
  import opened LedgerTypes

  predicate SortedDesc(s: seq<Entry>)
  {
    forall i, j :: 0 <= i < j < |s| ==> s[i].amount >= s[j].amount
  }

  /** Place `x` after every row whose amount is at least its own. */
  function Insert(s: seq<Entry>, x: Entry): seq<Entry>
  {
    if s == [] then [x]
    else if s[0].amount >= x.amount then [s[0]] + Insert(s[1..], x)
    else [x] + s
  }

  /** The stable sort into non-increasing order of amount. */
  function SortDesc(s: seq<Entry>): seq<Entry>
    decreases |s|
  {
    if s == [] then [] else Insert(SortDesc(s[..|s| - 1]), s[|s| - 1])
  }

  lemma {:induction false} InsertMultiset(s: seq<Entry>, x: Entry)
    ensures multiset(Insert(s, x)) == multiset(s) + multiset{x}
  {
    if s != [] && s[0].amount >= x.amount {
      InsertMultiset(s[1..], x);
      assert s == [s[0]] + s[1..];
    }
  }

  lemma {:induction false} InsertSorted(s: seq<Entry>, x: Entry)
    requires SortedDesc(s)
    ensures SortedDesc(Insert(s, x))
  {
    if s != [] && s[0].amount >= x.amount {
      InsertSorted(s[1..], x);
      InsertMultiset(s[1..], x);
      var r := Insert(s, x);
      assert r == [s[0]] + Insert(s[1..], x);
      forall j | 1 <= j < |r| ensures r[0].amount >= r[j].amount {
        assert r[j] in multiset(Insert(s[1..], x));
      }
    }
  }

  lemma {:induction false} InsertSum(s: seq<Entry>, x: Entry)
    ensures Sum(Insert(s, x)) == Sum(s) + x.amount
  {
    if s != [] && s[0].amount >= x.amount {
      InsertSum(s[1..], x);
      assert Insert(s, x)[1..] == Insert(s[1..], x);
    }
  }

  /** The result is in non-increasing order of amount. */
  lemma {:induction false} SortDescSorted(s: seq<Entry>)
    ensures SortedDesc(SortDesc(s))
    decreases |s|
  {
    if s != [] {
      SortDescSorted(s[..|s| - 1]);
      InsertSorted(SortDesc(s[..|s| - 1]), s[|s| - 1]);
    }
  }

  /** The result is a permutation of the input, so it has the same rows, the
      same length and the same total. */
  lemma {:induction false} SortDescPermutation(s: seq<Entry>)
    ensures multiset(SortDesc(s)) == multiset(s)
    ensures |SortDesc(s)| == |s|
    ensures Sum(SortDesc(s)) == Sum(s)
    decreases |s|
  {
    if s != [] {
      var p := s[..|s| - 1];
      SortDescPermutation(p);
      InsertMultiset(SortDesc(p), s[|s| - 1]);
      InsertSum(SortDesc(p), s[|s| - 1]);
      assert s == p + [s[|s| - 1]];
      SumAppend(p, [s[|s| - 1]]);
      assert |multiset(SortDesc(s))| == |s|;
    }
  }

  /** The rows of `s` whose amount is `a`, in their order in `s`. */
  function WithAmount(s: seq<Entry>, a: int): seq<Entry>
    decreases |s|
  {
    if s == [] then []
    else WithAmount(s[..|s| - 1], a) + (if s[|s| - 1].amount == a then [s[|s| - 1]] else [])
  }

  lemma {:induction false} WithAmountAppend(s: seq<Entry>, t: seq<Entry>, a: int)
    ensures WithAmount(s + t, a) == WithAmount(s, a) + WithAmount(t, a)
    decreases |t|
  {
    if t == [] {
      assert s + t == s;
    } else {
      var t' := t[..|t| - 1];
      WithAmountAppend(s, t', a);
      assert (s + t)[..|s + t| - 1] == s + t';
      assert (s + t)[|s + t| - 1] == t[|t| - 1];
    }
  }

  lemma WithAmountSingle(x: Entry, a: int)
    ensures WithAmount([x], a) == if x.amount == a then [x] else []
  {
    assert [x][..0] == [];
  }

  lemma {:induction false} InsertStable(t: seq<Entry>, x: Entry, a: int)
    requires SortedDesc(t)
    ensures WithAmount(Insert(t, x), a) == WithAmount(t, a) + (if x.amount == a then [x] else [])
  {
    WithAmountSingle(x, a);
    if t == [] {
    } else if t[0].amount >= x.amount {
      var rest := t[1..];
      assert SortedDesc(rest) by {
        forall i, j | 0 <= i < j < |rest| ensures rest[i].amount >= rest[j].amount {
          assert rest[i] == t[i + 1] && rest[j] == t[j + 1];
        }
      }
      InsertStable(rest, x, a);
      InsertStableBehind(t, x, a);
    } else {
      InsertStableFront(t, x, a);
    }
  }

  /** The step of `InsertStable` where `x` goes behind the head of `t`. */
  lemma InsertStableBehind(t: seq<Entry>, x: Entry, a: int)
    requires t != [] && t[0].amount >= x.amount
    requires WithAmount(Insert(t[1..], x), a) == WithAmount(t[1..], a) + (if x.amount == a then [x] else [])
    ensures WithAmount(Insert(t, x), a) == WithAmount(t, a) + (if x.amount == a then [x] else [])
  {
    var rest, tail := t[1..], if x.amount == a then [x] else [];
    var head := WithAmount([t[0]], a);
    assert WithAmount(t, a) == head + WithAmount(rest, a) by {
      assert t == [t[0]] + rest;
      WithAmountAppend([t[0]], rest, a);
    }
    assert WithAmount(Insert(t, x), a) == head + WithAmount(Insert(rest, x), a) by {
      assert Insert(t, x) == [t[0]] + Insert(rest, x);
      WithAmountAppend([t[0]], Insert(rest, x), a);
    }
    assert head + (WithAmount(rest, a) + tail) == (head + WithAmount(rest, a)) + tail;
  }

  /** The step of `InsertStable` where `x` goes in front of all of `t`. */
  lemma InsertStableFront(t: seq<Entry>, x: Entry, a: int)
    requires SortedDesc(t)
    requires t != [] && t[0].amount < x.amount
    ensures WithAmount(Insert(t, x), a) == WithAmount(t, a) + (if x.amount == a then [x] else [])
  {
    WithAmountSingle(x, a);
    assert Insert(t, x) == [x] + t;
    WithAmountAppend([x], t, a);
    if x.amount == a {
      assert forall k :: 0 <= k < |t| ==> t[k].amount < a by {
        forall k | 0 <= k < |t| ensures t[k].amount < a {
          assert t[0].amount >= t[k].amount || k == 0;
        }
      }
      NoneWithAmount(t, a);
    }
  }

  lemma {:induction false} NoneWithAmount(t: seq<Entry>, a: int)
    requires forall k :: 0 <= k < |t| ==> t[k].amount < a
    ensures WithAmount(t, a) == []
    decreases |t|
  {
    if t != [] {
      NoneWithAmount(t[..|t| - 1], a);
    }
  }

  /** The sort is stable: the rows of any one amount come out in the order
      they went in. */
  lemma {:induction false} SortDescStable(s: seq<Entry>, a: int)
    ensures WithAmount(SortDesc(s), a) == WithAmount(s, a)
    decreases |s|
  {
    if s != [] {
      var p, x := s[..|s| - 1], s[|s| - 1];
      SortDescStable(p, a);
      SortDescSorted(p);
      InsertStable(SortDesc(p), x, a);
    }
  }
  lemma {:induction false} AllWithAmount(t: seq<Entry>, a: int)
    requires forall k :: 0 <= k < |t| ==> t[k].amount == a
    ensures WithAmount(t, a) == t
    decreases |t|
  {
    if t != [] {
      AllWithAmount(t[..|t| - 1], a);
      assert t[..|t| - 1] + [t[|t| - 1]] == t;
    }
  }

  /** A list whose rows all carry the same amount comes out of the sort
      unchanged, which stability implies. */
  lemma SortUniform(s: seq<Entry>, a: int)
    requires forall k :: 0 <= k < |s| ==> s[k].amount == a
    ensures SortDesc(s) == s
  {
    SortDescStable(s, a);
    AllWithAmount(s, a);
    SortDescPermutation(s);
    var r := SortDesc(s);
    forall k | 0 <= k < |r|
      ensures r[k].amount == a
    {
      assert r[k] in multiset(r);
      assert r[k] in s;
    }
    AllWithAmount(r, a);
  }


  /** Sorting keeps the rows, their keys, and their keys' distinctness. */
  lemma SortDescIds(s: seq<Entry>)
    ensures forall e :: e in SortDesc(s) <==> e in s
    ensures Ids(SortDesc(s)) == Ids(s)
    ensures DistinctIds(s) ==> DistinctIds(SortDesc(s))
  {
    SortDescPermutation(s);
    var r := SortDesc(s);
    forall e ensures e in r <==> e in s {
      assert e in r <==> e in multiset(r);
      assert e in s <==> e in multiset(s);
    }
    if DistinctIds(s) {
      forall i, j | 0 <= i < j < |r| ensures r[i].id != r[j].id {
        if r[i].id == r[j].id {
          DistinctIdsCount(s, r[i], r[j]);
          if r[i] == r[j] {
            TwoIndicesCount(r, i, j);
          }
        }
      }
    }
  }

  /** Two rows of a record with distinct keys that share a key are the same row, which occurs once. */
  lemma DistinctIdsCount(s: seq<Entry>, x: Entry, y: Entry)
    requires DistinctIds(s) && x in s && y in s && x.id == y.id
    ensures x == y && multiset(s)[x] == 1
    decreases |s|
  {
    var i :| 0 <= i < |s| && s[i] == x;
    var j :| 0 <= j < |s| && s[j] == y;
    assert i == j;
    assert s == s[..i] + [x] + s[i + 1..];
    assert x !in s[..i];
    assert x !in s[i + 1..];
    assert multiset(s) == multiset(s[..i]) + multiset{x} + multiset(s[i + 1..]);
  }

  lemma TwoIndicesCount(r: seq<Entry>, i: int, j: int)
    requires 0 <= i < j < |r| && r[i] == r[j]
    ensures multiset(r)[r[i]] >= 2
  {
    assert r == r[..i] + [r[i]] + r[i + 1..j] + [r[j]] + r[j + 1..];
    assert multiset(r) == multiset(r[..i]) + multiset{r[i]} + multiset(r[i + 1..j]) + multiset{r[j]} + multiset(r[j + 1..]);
  }

  /** Where `x` lands: after the prefix of rows at least as large, before the rest. */
  lemma {:induction false} InsertAt(t: seq<Entry>, x: Entry, j: int)
    requires 0 <= j <= |t|
    requires forall k :: 0 <= k < j ==> t[k].amount >= x.amount
    requires forall k :: j <= k < |t| ==> t[k].amount < x.amount
    ensures Insert(t, x) == t[..j] + [x] + t[j..]
  {
    if t != [] && j > 0 {
      InsertAt(t[1..], x, j - 1);
      assert t[1..][..j - 1] == t[1..j];
      assert t[1..][j - 1..] == t[j..];
      assert t[..j] == [t[0]] + t[1..j];
    }
  }

  /** One pass of insertion sort: the row at `i` moves left past every
      strictly smaller row of the sorted prefix. */
  method InsertLast(a: array<Entry>, i: int)
    requires 0 <= i < a.Length && SortedDesc(a[..i])
    modifies a
    ensures a[..i + 1] == Insert(old(a[..i]), old(a[i]))
    ensures a[i + 1..] == old(a[i + 1..])
  {
    ghost var t := a[..i];
    var x := a[i];
    var j := i;
    assert a[..i + 1] == t[..j] + [x] + t[j..];
    while j > 0 && a[j - 1].amount < x.amount
      invariant 0 <= j <= i
      invariant a[..i + 1] == t[..j] + [x] + t[j..]
      invariant forall k :: j <= k < i ==> t[k].amount < x.amount
      invariant a[i + 1..] == old(a[i + 1..])
    {
      assert a[j - 1] == t[j - 1] && a[j] == x;
      a[j - 1], a[j] := a[j], a[j - 1];
      j := j - 1;
      assert a[..i + 1] == t[..j] + [x] + t[j..];
    }
    if j > 0 {
      assert a[j - 1] == t[j - 1];
    }
    InsertAt(t, x, j);
  }

  /** Insertion sort in place; equal rows keep their order, as in a stable sort. */
  method SortInPlace(a: array<Entry>)
    modifies a
    ensures a[..] == SortDesc(old(a[..]))
  {
    ghost var input := a[..];
    for i := 0 to a.Length
      invariant a[..i] == SortDesc(input[..i])
      invariant a[i..] == input[i..]
    {
      SortDescSorted(input[..i]);
      InsertLast(a, i);
      assert input[..i + 1][..i] == input[..i];
    }
    assert input[..a.Length] == input;
  }
}
