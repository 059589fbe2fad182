/**
  The add-expense form: `handleSave` checks the form in a fixed order, stops at
  the first failing check, and otherwise builds one share per selected
  participant, either the total split evenly (rounded to the cent) or the
  amount entered for that participant. `toggleParticipant` adds or removes one
  id from the selection. Amounts are integer cents; a total that does not
  parse (`NaN`) is `None`.
 */
module AddExpense {
  import opened LedgerTypes
  import opened Netting

  datatype Option<T> = None | Some(value: T)

  datatype SplitType = Even | Custom

  /** The form state `handleSave` reads. `custom` holds the entries typed into
      the custom-amount inputs; a participant without an entry has none. */
  datatype Form = Form(
    title: string,
    totalAmount: Option<int>,
    currency: Currency,
    paidBy: UserId,
    participants: seq<UserId>,
    split: SplitType,
    custom: map<UserId, int>)

  /** The checks of `handleSave`, in the order they are made. */
  datatype SaveError =
    | TitleMissing
    | InvalidAmount
    | PayerMissing
    | NoParticipants
    | CustomTotalMismatch(customTotal: int, total: int)

  /** Either the error shown, or the trimmed title and the expense to insert,
      carrying the id the database assigns and its shares. */
  datatype SaveOutcome =
    | Rejected(error: SaveError)
    | Saved(title: string, split: SplitType, expense: Expense)

  /** The characters `String.prototype.trim` removes: white space and line
      terminators as ECMAScript defines them. */
  predicate IsJsWhitespace(c: char)
  {
    var u := c as int;
    u == 0x20 || 0x09 <= u <= 0x0D || u == 0xA0 || u == 0x1680
    || 0x2000 <= u <= 0x200A || u == 0x2028 || u == 0x2029 || u == 0x202F
    || u == 0x205F || u == 0x3000 || u == 0xFEFF
  }

  function TrimStart(s: string): string
  {
    if s != [] && IsJsWhitespace(s[0]) then TrimStart(s[1..]) else s
  }

  function TrimEnd(s: string): string
  {
    if s != [] && IsJsWhitespace(s[|s| - 1]) then TrimEnd(s[..|s| - 1]) else s
  }

  /** `s.trim()` */
  function Trim(s: string): string
  {
    TrimEnd(TrimStart(s))
  }

  lemma {:induction false} TrimStartFacts(s: string)
    ensures exists k :: 0 <= k <= |s| && TrimStart(s) == s[k..] && (forall i :: 0 <= i < k ==> IsJsWhitespace(s[i]))
    ensures TrimStart(s) != [] ==> !IsJsWhitespace(TrimStart(s)[0])
  {
    if s != [] && IsJsWhitespace(s[0]) {
      TrimStartFacts(s[1..]);
      var k :| 0 <= k <= |s[1..]| && TrimStart(s[1..]) == s[1..][k..] && (forall i :: 0 <= i < k ==> IsJsWhitespace(s[1..][i]));
      assert s[1..][k..] == s[k + 1..];
      assert forall i :: 0 <= i < k + 1 ==> IsJsWhitespace(s[i]) by {
        forall i | 0 <= i < k + 1 ensures IsJsWhitespace(s[i]) {
          if i > 0 {
            assert s[i] == s[1..][i - 1];
          }
        }
      }
    } else {
      assert s[0..] == s;
    }
  }

  lemma {:induction false} TrimEndFacts(s: string)
    ensures exists k :: 0 <= k <= |s| && TrimEnd(s) == s[..k] && (forall i :: k <= i < |s| ==> IsJsWhitespace(s[i]))
    ensures TrimEnd(s) != [] ==> !IsJsWhitespace(TrimEnd(s)[|TrimEnd(s)| - 1])
    decreases |s|
  {
    if s != [] && IsJsWhitespace(s[|s| - 1]) {
      var p := s[..|s| - 1];
      TrimEndFacts(p);
      var k :| 0 <= k <= |p| && TrimEnd(p) == p[..k] && (forall i :: k <= i < |p| ==> IsJsWhitespace(p[i]));
      assert p[..k] == s[..k];
      assert forall i :: k <= i < |s| ==> IsJsWhitespace(s[i]) by {
        forall i | k <= i < |s| ensures IsJsWhitespace(s[i]) {
          if i < |p| {
            assert s[i] == p[i];
          }
        }
      }
    } else {
      assert s[..|s|] == s;
    }
  }

  /** Every character is white space. */
  predicate Blank(s: string)
  {
    forall i :: 0 <= i < |s| ==> IsJsWhitespace(s[i])
  }

  lemma {:induction false} TrimStartBlank(s: string)
    ensures TrimStart(s) == [] <==> Blank(s)
  {
    if s != [] && IsJsWhitespace(s[0]) {
      TrimStartBlank(s[1..]);
      assert Blank(s) <==> Blank(s[1..]) by {
        if Blank(s[1..]) {
          forall i | 0 < i < |s| ensures IsJsWhitespace(s[i]) {
            assert s[i] == s[1..][i - 1];
          }
        }
      }
    }
  }

  /** The trimmed title neither starts nor ends with white space, and it is
      empty exactly when the title is all white space. */
  lemma TrimFacts(s: string)
    ensures Trim(s) != [] ==> !IsJsWhitespace(Trim(s)[0]) && !IsJsWhitespace(Trim(s)[|Trim(s)| - 1])
    ensures Trim(s) == [] <==> Blank(s)
  {
    var t := TrimStart(s);
    TrimStartFacts(s);
    TrimEndFacts(t);
    TrimStartBlank(s);
    var k :| 0 <= k <= |t| && TrimEnd(t) == t[..k] && (forall i :: k <= i < |t| ==> IsJsWhitespace(t[i]));
    if Trim(s) != [] {
      assert Trim(s)[0] == t[0];
    }
  }

  /** `customAmounts[uid] || '0'` read as a number: 0 when nothing was entered. */
  function CustomValue(custom: map<UserId, int>, uid: UserId): int
  {
    if uid in custom then custom[uid] else 0
  }

  /** The `reduce` over the selected participants summing their entries. */
  function CustomTotal(participants: seq<UserId>, custom: map<UserId, int>): int
    decreases |participants|
  {
    if participants == [] then 0
    else
      CustomTotal(participants[..|participants| - 1], custom)
        + CustomValue(custom, participants[|participants| - 1])
  }

  function Abs(x: int): nat
  {
    if x < 0 then -x else x
  }

  /** `parseFloat((total / n).toFixed(2))` in cents: `total / n` rounded to the
      nearest cent, halves rounded up. */
  function EvenShare(total: int, n: int): int
    requires n > 0
  {
    (2 * total + n) / (2 * n)
  }

  /** The even share is the nearest cent to `total / n`: `n` times it lies
      within half of `n` cents of the total, a tie going to the larger cent. */
  lemma EvenShareNearest(total: int, n: int)
    requires n > 0
    ensures -n < 2 * (n * EvenShare(total, n) - total) <= n
  {
    var q := (2 * total + n) / (2 * n);
    var m := (2 * total + n) % (2 * n);
    assert 2 * total + n == q * (2 * n) + m && 0 <= m < 2 * n;
    assert q * (2 * n) == 2 * (n * q);
  }

  /** The amount written into the share of `uid`. */
  function ShareFor(split: SplitType, total: int, n: int, custom: map<UserId, int>, uid: UserId): int
    requires n > 0
  {
    if split == Even then EvenShare(total, n) else CustomValue(custom, uid)
  }

  /** `participantArray.map(uid => ({ user_id: uid, amount: ... }))` */
  function BuildShares(participants: seq<UserId>, split: SplitType, total: int, custom: map<UserId, int>): seq<Share>
    requires participants != []
  {
    seq(|participants|, i requires 0 <= i < |participants| =>
      Share(participants[i], ShareFor(split, total, |participants|, custom, participants[i])))
  }

  /** `handleSave` from reading the total to the construction of the shares;
      `newId` is the id the database gives the inserted expense. */
  function HandleSave(f: Form, newId: string): (r: SaveOutcome)
    ensures r.Saved? ==>
      (r.title == Trim(f.title) && r.title != [] && r.split == f.split
       && r.expense.totalAmount > 0 && r.expense.paidBy == f.paidBy && r.expense.paidBy != ""
       && |r.expense.shares| == |f.participants| > 0)
  {
    if Trim(f.title) == [] then Rejected(TitleMissing)
    else if f.totalAmount.None? || f.totalAmount.value <= 0 then Rejected(InvalidAmount)
    else if f.paidBy == "" then Rejected(PayerMissing)
    else if f.participants == [] then Rejected(NoParticipants)
    else if f.split == Custom && Abs(CustomTotal(f.participants, f.custom) - f.totalAmount.value) > 1 then
      Rejected(CustomTotalMismatch(CustomTotal(f.participants, f.custom), f.totalAmount.value))
    else
      var total := f.totalAmount.value;
      Saved(Trim(f.title), f.split,
        Expense(newId, f.currency, total, f.paidBy, BuildShares(f.participants, f.split, total, f.custom)))
  }

  /** A total that can be saved: it parsed and is positive. */
  predicate ValidTotal(amount: Option<int>)
  {
    amount.Some? && amount.value > 0
  }

  /** The checks run in order and the first one that fails decides the error:
      a blank title, then a missing or non-positive total, then no payer, then
      no participants, then (for a custom split only) entries more than a cent
      away from the total. */
  lemma RejectionOrder(f: Form, newId: string)
    ensures HandleSave(f, newId) == Rejected(TitleMissing) <==> Blank(f.title)
    ensures HandleSave(f, newId) == Rejected(InvalidAmount)
      <==> (!Blank(f.title) && !ValidTotal(f.totalAmount))
    ensures HandleSave(f, newId) == Rejected(PayerMissing)
      <==> (!Blank(f.title) && ValidTotal(f.totalAmount) && f.paidBy == "")
    ensures HandleSave(f, newId) == Rejected(NoParticipants)
      <==> (!Blank(f.title) && ValidTotal(f.totalAmount) && f.paidBy != "" && f.participants == [])
    ensures (HandleSave(f, newId).Rejected? && HandleSave(f, newId).error.CustomTotalMismatch?)
      <==> (!Blank(f.title) && ValidTotal(f.totalAmount) && f.paidBy != "" && f.participants != []
        && f.split == Custom && Abs(CustomTotal(f.participants, f.custom) - f.totalAmount.value) > 1)
  {
    TrimFacts(f.title);
  }

  /** A save goes ahead exactly when every check passes; an even split is
      never held back by the sum check, and a custom split is accepted exactly
      when the selected participants' entries sum to within a cent of the
      total. A mismatch reports both sums. */
  lemma SavedExactly(f: Form, newId: string)
    ensures HandleSave(f, newId).Saved?
      <==> (!Blank(f.title) && ValidTotal(f.totalAmount) && f.paidBy != "" && f.participants != []
        && (f.split == Custom ==> -1 <= CustomTotal(f.participants, f.custom) - f.totalAmount.value <= 1))
    ensures f.split == Even ==> !(HandleSave(f, newId).Rejected? && HandleSave(f, newId).error.CustomTotalMismatch?)
    ensures (HandleSave(f, newId).Rejected? && HandleSave(f, newId).error.CustomTotalMismatch?) ==>
      HandleSave(f, newId).error == CustomTotalMismatch(CustomTotal(f.participants, f.custom), f.totalAmount.value)
  {
    TrimFacts(f.title);
  }

  /** Against a total of 100.00, custom entries summing to 99.99 or 100.01 are
      accepted and 99.98 is rejected. */
  lemma CustomToleranceExample()
    ensures HandleSave(Form("Dinner", Some(10000), "EUR", "a", ["a", "b"], Custom, map["a" := 5000, "b" := 4999]), "x").Saved?
    ensures HandleSave(Form("Dinner", Some(10000), "EUR", "a", ["a", "b"], Custom, map["a" := 5000, "b" := 5001]), "x").Saved?
    ensures HandleSave(Form("Dinner", Some(10000), "EUR", "a", ["a", "b"], Custom, map["a" := 5000, "b" := 4998]), "x")
      == Rejected(CustomTotalMismatch(9998, 10000))
  {
    var t := "Dinner";
    assert !IsJsWhitespace(t[0]) && TrimStart(t) == t;
    assert !IsJsWhitespace(t[|t| - 1]) && TrimEnd(t) == t;
    var ab: seq<UserId> := ["a", "b"];
    assert ab[..1] == ["a"] && ["a"][..0] == [];
    assert CustomTotal(ab, map["a" := 5000, "b" := 4999]) == 9999;
    assert CustomTotal(ab, map["a" := 5000, "b" := 5001]) == 10001;
    assert CustomTotal(ab, map["a" := 5000, "b" := 4998]) == 9998;
  }

  /** A saved expense has one share per selected participant, in selection
      order, with no id twice when the selection has none twice; it carries the
      form's total, payer and currency. */
  lemma SavedShares(f: Form, newId: string)
    requires HandleSave(f, newId).Saved?
    ensures var e := HandleSave(f, newId).expense;
      && e.id == newId && e.currency == f.currency && e.paidBy == f.paidBy && e.paidBy != ""
      && f.totalAmount == Some(e.totalAmount) && e.totalAmount > 0
      && |e.shares| == |f.participants|
      && (forall i :: 0 <= i < |e.shares| ==> e.shares[i].userId == f.participants[i])
      && ShareIds(e.shares) == set u | u in f.participants
      && (Distinct(f.participants) ==> Distinct(seq(|e.shares|, i requires 0 <= i < |e.shares| => e.shares[i].userId)))
  {
    var e := HandleSave(f, newId).expense;
    var ids := seq(|e.shares|, i requires 0 <= i < |e.shares| => e.shares[i].userId);
    assert ids == f.participants;
    forall u | u in f.participants ensures u in ShareIds(e.shares) {
      var i :| 0 <= i < |f.participants| && f.participants[i] == u;
      assert e.shares[i] in e.shares;
    }
  }

  /** In an even split every share is the same amount: `total / n` to the
      nearest cent. */
  lemma EvenShares(f: Form, newId: string)
    requires HandleSave(f, newId).Saved? && f.split == Even
    ensures var e := HandleSave(f, newId).expense; var n := |f.participants|;
      n > 0 && forall s :: s in e.shares ==>
        s.amount == EvenShare(e.totalAmount, n) && -n < 2 * (n * s.amount - e.totalAmount) <= n
  {
    EvenShareNearest(HandleSave(f, newId).expense.totalAmount, |f.participants|);
  }

  /** In a custom split each share is what was entered for that participant,
      or 0 where nothing was entered. */
  lemma CustomShares(f: Form, newId: string)
    requires HandleSave(f, newId).Saved? && f.split == Custom
    ensures var e := HandleSave(f, newId).expense;
      forall i :: 0 <= i < |e.shares| ==>
        (f.participants[i] in f.custom ==> e.shares[i].amount == f.custom[f.participants[i]])
        && (f.participants[i] !in f.custom ==> e.shares[i].amount == 0)
  {
  }

  lemma {:induction false} CustomTotalAgrees(participants: seq<UserId>, c1: map<UserId, int>, c2: map<UserId, int>)
    requires forall u :: u in participants ==> CustomValue(c1, u) == CustomValue(c2, u)
    ensures CustomTotal(participants, c1) == CustomTotal(participants, c2)
    decreases |participants|
  {
    if participants != [] {
      var p := participants[..|participants| - 1];
      assert forall u :: u in p ==> u in participants;
      CustomTotalAgrees(p, c1, c2);
    }
  }

  /** Entries typed for participants who are not selected change nothing. */
  lemma UnselectedIgnored(f: Form, custom2: map<UserId, int>, newId: string)
    requires forall u :: u in f.participants ==> CustomValue(f.custom, u) == CustomValue(custom2, u)
    ensures HandleSave(f.(custom := custom2), newId) == HandleSave(f, newId)
  {
    CustomTotalAgrees(f.participants, f.custom, custom2);
    if f.participants != [] && f.totalAmount.Some? {
      var s1 := BuildShares(f.participants, f.split, f.totalAmount.value, f.custom);
      var s2 := BuildShares(f.participants, f.split, f.totalAmount.value, custom2);
      assert forall i :: 0 <= i < |s1| ==> f.participants[i] in f.participants;
      assert s1 == s2;
    }
  }

  lemma {:induction false} BuiltTotal(participants: seq<UserId>, split: SplitType, total: int, custom: map<UserId, int>, k: nat)
    requires participants != [] && k <= |participants|
    ensures ShareTotal(BuildShares(participants, split, total, custom)[..k])
      == if split == Even then k * EvenShare(total, |participants|) else CustomTotal(participants[..k], custom)
  {
    var shares := BuildShares(participants, split, total, custom);
    if k > 0 {
      BuiltTotal(participants, split, total, custom, k - 1);
      assert shares[..k][..k - 1] == shares[..k - 1];
      assert participants[..k][..k - 1] == participants[..k - 1];
    }
  }

  /** The shares of a saved expense fall short of or exceed its total by at most
      a cent for a custom split, and by at most half a cent per participant for
      an even split; that difference is all the expense adds to the
      imbalance of the balances in its currency. */
  lemma SavedSharesNearTotal(f: Form, newId: string)
    requires HandleSave(f, newId).Saved?
    ensures var e := HandleSave(f, newId).expense; var n := |f.participants|;
      && Imbalance([e], e.currency) == e.totalAmount - ShareTotal(e.shares)
      && (f.split == Custom ==> -1 <= ShareTotal(e.shares) - e.totalAmount <= 1)
      && (f.split == Even ==> -n < 2 * (ShareTotal(e.shares) - e.totalAmount) <= n)
  {
    var e := HandleSave(f, newId).expense;
    var n := |f.participants|;
    BuiltTotal(f.participants, f.split, e.totalAmount, f.custom, n);
    assert e.shares[..n] == e.shares;
    assert f.participants[..n] == f.participants;
    EvenShareNearest(e.totalAmount, n);
    assert [e][..0] == [];
  }

  /** The participant set as the form keeps it: a JavaScript `Set`, whose
      iteration order is insertion order. */
  class ParticipantSelection {
    var selected: seq<UserId>

    ghost predicate Valid()
      reads this
    {
      Distinct(selected)
    }

    /** `new Set(members.map(m => m.user_id))`: everyone starts selected. */
    constructor (members: seq<Member>)
      ensures Valid()
      ensures selected == Dedup(seq(|members|, i requires 0 <= i < |members| => members[i].userId))
    {
      selected := Dedup(seq(|members|, i requires 0 <= i < |members| => members[i].userId));
    }

    /** `toggleParticipant`: copy the set, then delete `id` if present or add it. */
    method Toggle(id: UserId)
      requires Valid()
      modifies this
      ensures Valid()
      ensures selected == Toggled(old(selected), id)
    {
      var current := selected;
      var next: seq<UserId> := [];
      var had := false;
      for i := 0 to |current|
        invariant next == Without(current[..i], id)
        invariant had <==> id in current[..i]
      {
        assert current[..i + 1] == current[..i] + [current[i]];
        WithoutAppend(current[..i], current[i], id);
        if current[i] == id {
          had := true;
        } else {
          next := next + [current[i]];
        }
      }
      assert current[..|current|] == current;
      if !had {
        next := next + [id];
      }
      WithoutFacts(current, id);
      ToggledDistinct(current, id);
      selected := next;
    }
  }

  /** `s` with every occurrence of `id` deleted, the rest in order. */
  function Without(s: seq<UserId>, id: UserId): seq<UserId>
  {
    if s == [] then []
    else (if s[0] == id then [] else [s[0]]) + Without(s[1..], id)
  }

  /** The selection after one toggle of `id`. */
  function Toggled(s: seq<UserId>, id: UserId): seq<UserId>
  {
    if id in s then Without(s, id) else s + [id]
  }

  lemma {:induction false} WithoutAppend(s: seq<UserId>, x: UserId, id: UserId)
    ensures Without(s + [x], id) == Without(s, id) + (if x == id then [] else [x])
  {
    if s != [] {
      WithoutAppend(s[1..], x, id);
      assert (s + [x])[1..] == s[1..] + [x];
    }
  }

  lemma {:induction false} WithoutFacts(s: seq<UserId>, id: UserId)
    ensures forall x :: x in Without(s, id) <==> x in s && x != id
    ensures Distinct(s) ==> Distinct(Without(s, id))
    ensures id !in s ==> Without(s, id) == s
  {
    if s != [] {
      WithoutFacts(s[1..], id);
      if Distinct(s) {
        assert Distinct(s[1..]);
        var r := Without(s, id);
        if s[0] != id {
          assert s[0] !in s[1..];
          forall i, j | 0 <= i < j < |r| ensures r[i] != r[j] {
            if i == 0 {
              assert r[j] in Without(s[1..], id);
            } else {
              assert r[i] == Without(s[1..], id)[i - 1] && r[j] == Without(s[1..], id)[j - 1];
            }
          }
        }
      }
    }
  }

  /** Toggling keeps the selection free of repeats. */
  lemma ToggledDistinct(s: seq<UserId>, id: UserId)
    requires Distinct(s)
    ensures Distinct(Toggled(s, id))
  {
    WithoutFacts(s, id);
  }

  /** A toggle flips whether `id` is selected and leaves every other id as it
      was; the ids that stay keep their order. */
  lemma ToggledMembership(s: seq<UserId>, id: UserId)
    ensures id in Toggled(s, id) <==> id !in s
    ensures forall x :: x != id ==> (x in Toggled(s, id) <==> x in s)
    ensures Without(Toggled(s, id), id) == Without(s, id)
  {
    WithoutFacts(s, id);
    if id !in s {
      WithoutAppend(s, id, id);
    } else {
      WithoutFacts(Without(s, id), id);
    }
  }

  /** Toggling the same id twice gives back the same set of ids; the order is
      the same too unless `id` was selected and not last, in which case it
      moves to the end. */
  lemma ToggleTwice(s: seq<UserId>, id: UserId)
    requires Distinct(s)
    ensures forall x :: x in Toggled(Toggled(s, id), id) <==> x in s
    ensures id !in s ==> Toggled(Toggled(s, id), id) == s
    ensures id in s ==> Toggled(Toggled(s, id), id) == Without(s, id) + [id]
  {
    WithoutFacts(s, id);
    if id !in s {
      WithoutAppend(s, id, id);
      assert id in s + [id];
    } else {
      WithoutFacts(Without(s, id), id);
    }
  }
}
