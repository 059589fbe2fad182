# Group expense ledger: a verified Dafny model

Travel-with-Me keeps a shared expense ledger for every trip. Each expense
has a payer and a list of owed shares, one per participant, and it can be in
any currency. This project models two parts of that ledger and proves
properties about them.

- **The settle-up panel.** This covers `calcSettlements` and its caller in
  `components/SettleUpPanel.tsx`.
  - For one currency, every participant's balance is netted: what they paid
    minus what they owe.
  - Balances below -0.01 become debtors and balances above +0.01 become
    creditors.
  - Both lists are sorted largest first and matched greedily.
  - Transfers above 0.01 are listed, with the names taken from the member
    roster.
  - The panel does this for every currency used and reports whether any
    settlement is listed.
  - It also shows a per-person summary of net amounts per currency.
- **The add-expense form.** This covers `handleSave` and `toggleParticipant`
  in `components/AddExpenseModal.tsx`.
  - Saving checks the title, the total, the payer, the participant set and,
    for a custom split, that the entered amounts sum to the total within
    0.01.
  - It then builds one share per selected participant.
  - Toggling adds or removes one participant from the selection.

All amounts are integer cents, so the source's tolerances `< -0.01`, `> 0.01`
and `< 0.01` become `< -1`, `> 1` and `< 1`. `Math.round(x * 100) / 100` is
then the identity.

A JavaScript `Record<string, number>` is modelled as an insertion-ordered list
of `{ id, amount }` rows (`LedgerTypes.Entry`):
- `Get` reads a key, giving 0 when it is missing (`|| 0`).
- `Put` overwrites a key in place or appends a new one.

Where the model updates in place, it keeps the source's own form:
- the two sorts run in place on arrays;
- the matching loop decrements array cells;
- `toggleParticipant` is a method of a class that holds the selection.

Each imperative method is proved equal to a functional definition. The
lemmas state what that definition means.

Modules and files:
- `LedgerTypes` (`ledger_types.dfy`): records and their operations.
- `Netting` (`balances.dfy`): the balance pass.
- `Partition` (`partition.dfy`): splitting balances into debtors and creditors.
- `Sorting` (`sorting.dfy`): the stable descending sort.
- `Matching` (`matching.dfy`): the greedy loop.
- `SettleUp` (`settle_up.dfy`): `calcSettlements` end to end.
- `SettleUpPanel` (`panel.dfy`): the per-currency driver and the per-person summary.
- `AddExpense` (`add_expense.dfy`): the form.

Four behaviours in exact cents (the model) are worth stating plainly:
- A custom split with no amount entered for a participant counts that amount
  as 0. The save is not rejected for it.
- An id that is not in the roster gets a balance like anyone else, and its
  name shows as "Unknown".
- Settlements do not always bring every balance to within 0.01.
  `SettleUp.SettlementAccounts` states who is paid in full, counting the
  1-cent transfers the loop deducts but does not list.
  `SettleUp.CoveredLedgerNearlyBalanced` bounds what the tolerance band
  leaves over.
- Because transfers of one cent are deducted but not listed, a creditor can
  be owed more than a cent and still appear in no listed settlement.
  `SettleUp.UnlistedCreditor` exhibits such a ledger: `y` is owed 2 cents and
  is paid in two unlisted 1-cent transfers.

## Model

| member | source | states |
|---|---|---|
| LedgerTypes.PutGet | components/SettleUpPanel.tsx:40-42 | After `record[id] = v`, reading `id` gives `v` and every other key reads as before |
| LedgerTypes.PutShape | components/SettleUpPanel.tsx:40-42 | Assigning an existing key keeps every key in its place; a new key is appended last |
| LedgerTypes.PutKeys | components/SettleUpPanel.tsx:40-42 | The keys after an assignment are the old keys plus the assigned one |
| LedgerTypes.Dedup | components/SettleUpPanel.tsx:84 | `[...new Set(xs)]` has no repeated element and holds exactly the elements of `xs` |
| LedgerTypes.GetMeans | components/SettleUpPanel.tsx:40-42 | In a record without repeated keys, a row `(id, v)` exists exactly when `id` is a key whose value is `v`; a missing key reads 0 |
| Netting.InvolvedMeans | components/SettleUpPanel.tsx:37-44 | An id is touched by the balance pass exactly when it pays or holds a share in some expense of that currency |
| Netting.ApplySharesGet | components/SettleUpPanel.tsx:41-43 | Subtracting an expense's shares lowers each id's balance by exactly the total of its shares there |
| Netting.ApplyExpensesGet | components/SettleUpPanel.tsx:37-44 | After the pass, each balance has grown by exactly that id's net: paid minus owed in the currency |
| Netting.Balances | components/SettleUpPanel.tsx:33-44 | The balance record never holds the same id twice |
| Netting.BalanceIsNet | components/SettleUpPanel.tsx:33-44 | Each participant's balance is what they paid in the currency minus what they owe there; an id never seen has 0 |
| Netting.BalanceKeys | components/SettleUpPanel.tsx:33-44 | The balance record has one key per roster member and per payer or share holder in the currency, each exactly once |
| Netting.Conservation | components/SettleUpPanel.tsx:37-44 | The balances sum to the currency's total expense amounts minus its total shares |
| Netting.ConservationWhenCovered | components/SettleUpPanel.tsx:37-44 | If every expense's shares add up to its total, the balances sum to zero |
| Netting.OnlyOwnCurrencyCounts | components/SettleUpPanel.tsx:37-39 | Dropping every expense of another currency leaves the balances unchanged |
| Netting.OtherCurrencyIgnored | components/SettleUpPanel.tsx:37-39 | Logging an expense in another currency leaves the balances unchanged |
| Netting.ComputeBalances | components/SettleUpPanel.tsx:33-44 | The loops build the balance record: distinct keys, each holding its id's net in the currency |
| Partition.DebtorsExactly | components/SettleUpPanel.tsx:49-53 | A debtor row exists exactly for a balance below -1 cent, carrying the negated balance |
| Partition.CreditorsExactly | components/SettleUpPanel.tsx:49-53 | A creditor row exists exactly for a balance above +1 cent, carrying that balance |
| Partition.BandExactly | components/SettleUpPanel.tsx:49-53 | The band holds exactly the balances between -1 and +1 cent, which neither list receives |
| Partition.PartitionDisjoint | components/SettleUpPanel.tsx:49-53 | Neither list repeats an id, no id is in both, and a balance within one cent of zero is in neither |
| Partition.PartitionSum | components/SettleUpPanel.tsx:49-53 | The balances' sum equals total credit minus total debt plus what the band holds |
| Partition.BandSumBound | components/SettleUpPanel.tsx:49-53 | The band's total is at most one cent per band entry in either direction |
| Partition.Split | components/SettleUpPanel.tsx:46-53 | The loop over the balances produces exactly the debtor and creditor lists, in balance order |
| Sorting.SortDescSorted | components/SettleUpPanel.tsx:55-56 | The sorted list is in non-increasing order of amount |
| Sorting.SortDescPermutation | components/SettleUpPanel.tsx:55-56 | Sorting is a permutation: same rows, same length, same total |
| Sorting.SortDescIds | components/SettleUpPanel.tsx:55-56 | Sorting keeps the same rows and keys, and keeps the keys distinct |
| Sorting.InsertStable | components/SettleUpPanel.tsx:55-56 | Inserting a row into a sorted list puts it after every row of equal amount |
| Sorting.SortDescStable | components/SettleUpPanel.tsx:55-56 | The sort is stable: the rows of any one amount come out in the order they went in |
| Sorting.SortUniform | components/SettleUpPanel.tsx:55-56 | A list whose rows all carry the same amount comes out of the sort unchanged |
| Sorting.InsertLast | components/SettleUpPanel.tsx:55-56 | One insertion step moves the next row into place in the sorted prefix and leaves the rest of the array alone |
| Sorting.SortInPlace | components/SettleUpPanel.tsx:55-56 | The in-place sort leaves the array holding the stable descending sort of its old contents |
| Matching.NameOfMeans | components/SettleUpPanel.tsx:64-70 | The shown name is the first roster match's username, or "Unknown" if there is no match or it is empty; it is never empty |
| Matching.UnlistedCreditorRun | components/SettleUpPanel.tsx:61-78 | Debts 3, 3 against credits 2, 2, 2: the loop makes four transfers, the two to the middle creditor are of one cent, and only the two 2-cent transfers are listed |
| Matching.Greedy | components/SettleUpPanel.tsx:58-80 | The matching makes no more transfers than there are debtor and creditor rows together |
| Matching.GreedyCount | components/SettleUpPanel.tsx:61-78 | Each round settles at least one side, so at most `n + m - 1` transfers happen, and none if either list is empty |
| Matching.GreedyEndpoints | components/SettleUpPanel.tsx:61-78 | Every transfer runs from a listed debtor to a listed creditor |
| Matching.GreedyAmounts | components/SettleUpPanel.tsx:61-78 | With positive lists, every transfer is at least one cent |
| Matching.RemainderFacts | components/SettleUpPanel.tsx:74-77 | Deducting a transfer keeps amounts positive, lowers the list total by the transfer and keeps ids distinct; a row drops out exactly when it is used up |
| Matching.DebtorAccounts | components/SettleUpPanel.tsx:61-78 | Over every transfer the loop deducts, listed or not (1-cent transfers are deducted but not listed): no debtor pays more than its debt, and each pays it in full when total debt is at most total credit |
| Matching.CreditorAccounts | components/SettleUpPanel.tsx:61-78 | Over every transfer the loop deducts, listed or not (1-cent transfers are deducted but not listed): no creditor receives more than its credit, and each is paid in full when total credit is at most total debt |
| Matching.LeftoverFacts | components/SettleUpPanel.tsx:61-78 | When the loop stops, one list is used up and the other holds exactly the difference of the two totals |
| Matching.BalancedRunExhausts | components/SettleUpPanel.tsx:61-78 | When total debt equals total credit, both lists are used up |
| Matching.RecordedFacts | components/SettleUpPanel.tsx:63-73 | Only transfers above one cent are listed, each matches a transfer made, and both names come from the roster |
| Matching.RecordedConcat | components/SettleUpPanel.tsx:63-73 | Listing transfers distributes over concatenation |
| Matching.GreedyStep | components/SettleUpPanel.tsx:61-78 | One round lists the head transfer (if above a cent) and continues with the deducted lists |
| Matching.Round | components/SettleUpPanel.tsx:61-78 | One pass of the loop keeps the settlements so far plus those still to come equal to the whole run's, and leaves the stopping point unchanged |
| Matching.Deduct | components/SettleUpPanel.tsx:74-75 | Subtracts the transfer from the current debtor and creditor cells and changes nothing else |
| Matching.Step | components/SettleUpPanel.tsx:62-77 | One pass of the loop body: takes the smaller amount, lists it when above a cent, deducts it from both current cells and moves past a row below one cent |
| Matching.StopsAtLeftover | components/SettleUpPanel.tsx:61 | Where the loop stops, the rows not yet used up are those `Leftover` predicts, and none are left when the totals balance |
| Matching.MatchGreedy | components/SettleUpPanel.tsx:58-80 | The loop returns exactly the settlements of the greedy matching of the arrays' old contents. It stops with one array used up, at the rows `Leftover` predicts, and with positive balanced totals it uses up both |
| SettleUp.Settlements | components/SettleUpPanel.tsx:32-81 | There are no more settlements than debtors and creditors together |
| SettleUp.CalcSettlements | components/SettleUpPanel.tsx:32-81 | The whole pipeline returns exactly `Settlements`: net, split, sort and match |
| SettleUp.BalanceRow | components/SettleUpPanel.tsx:33-44 | A balance row `(x, v)` exists exactly when `x` is a roster member or a party of the currency and its net is `v` |
| SettleUp.DebtorsAre | components/SettleUpPanel.tsx:49-56 | The sorted debtors are exactly the participants with a net below -1 cent, each carrying their debt |
| SettleUp.CreditorsAre | components/SettleUpPanel.tsx:49-56 | The sorted creditors are exactly the participants with a net above +1 cent, each carrying their credit |
| SettleUp.Partitioned | components/SettleUpPanel.tsx:49-56 | Neither list repeats an id, no id is in both, and a participant within a cent of zero is in neither |
| SettleUp.SortedForMatching | components/SettleUpPanel.tsx:55-56 | Both lists enter the loop sorted largest first, as permutations of the unsorted lists |
| SettleUp.ListsPositive | components/SettleUpPanel.tsx:49-56 | Every amount in both lists is positive |
| SettleUp.SettlementShape | components/SettleUpPanel.tsx:61-78 | Every listed settlement is above a cent and runs from a net debtor to a net creditor. It is no more than either party's balance and carries both roster names |
| SettleUp.SettlementCount | components/SettleUpPanel.tsx:61-78 | There are at most `debtors + creditors - 1` transfers, and no settlements when either list is empty |
| SettleUp.SettlementAccounts | components/SettleUpPanel.tsx:61-78 | Counting every transfer the loop deducts, including the 1-cent ones it does not list: nobody pays more than their debt or receives more than their credit; a participant who is not a net debtor pays a total of at most 0, and one who is not a net creditor receives at most 0. Debtors pay in full when debts do not exceed credits; creditors are paid in full in the converse case |
| SettleUp.UnlistedCreditor | components/SettleUpPanel.tsx:61-78 | For one covered, balanced ledger, `y` is owed 2 cents and receives 2 cents from the loop, yet no listed settlement names `y`: both transfers to `y` are of one cent |
| SettleUp.UnlistedLedgerBalances | components/SettleUpPanel.tsx:33-44 | The balances of that ledger, in key insertion order |
| SettleUp.UnlistedLedgerLists | components/SettleUpPanel.tsx:46-56 | The sorted debtor and creditor lists of that ledger |
| SettleUp.UnlistedLedgerSettlements | components/SettleUpPanel.tsx:61-78 | What the panel lists for that ledger: exactly the transfers a to x and b to z of 2 cents each, so no listed settlement names `y` |
| SettleUp.BalancedLedgerExhausts | components/SettleUpPanel.tsx:61-78 | When total debt equals total credit, the loop uses up both lists |
| SettleUp.CoveredLedgerNearlyBalanced | components/SettleUpPanel.tsx:37-56 | When every expense's shares add up to its total, debts minus credits equals the band's total, at most one cent per band entry |
| SettleUp.OnlyItsCurrency | components/SettleUpPanel.tsx:37-39 | A currency's settlements depend only on the expenses in that currency |
| SettleUp.OtherCurrencyNoEffect | components/SettleUpPanel.tsx:37-39 | Adding an expense in another currency leaves a currency's settlements unchanged |
| SettleUpPanel.CurrenciesAre | components/SettleUpPanel.tsx:84 | The currency list has no repeats and holds exactly the currencies of the expenses |
| SettleUpPanel.NoExpenseNoBalance | components/SettleUpPanel.tsx:84-89 | In a currency with no expense, nobody has paid or owes anything |
| SettleUpPanel.SettledUnlessUsed | components/SettleUpPanel.tsx:84-91 | A currency with outstanding settlements is one the expenses use, so the driver misses none |
| SettleUpPanel.SettleAll | components/SettleUpPanel.tsx:84-91 | One entry per used currency holding its settlements; `hasAny` holds exactly when some currency has a settlement |
| SettleUpPanel.PaidTableValues | components/SettleUpPanel.tsx:162-165 | The paid table holds, per currency, the member's total paid |
| SettleUpPanel.PaidTableKeys | components/SettleUpPanel.tsx:162-165 | The paid table has a key exactly for the currencies in which the member paid an expense |
| SettleUpPanel.OwedSharesValues | components/SettleUpPanel.tsx:166-170 | Walking one expense's shares adds the member's share total to that currency only |
| SettleUpPanel.OwedSharesKeys | components/SettleUpPanel.tsx:166-170 | Walking one expense's shares adds that currency as a key exactly when the member holds a share |
| SettleUpPanel.OwesTableMeans | components/SettleUpPanel.tsx:162-171 | The owes table holds the member's owed total per currency, with a key exactly where they hold a share |
| SettleUpPanel.SummaryMeans | components/SettleUpPanel.tsx:173-187 | One line per currency the member paid or holds a share in, none repeated, each showing paid minus owed |
| SettleUpPanel.SummaryMatchesBalance | components/SettleUpPanel.tsx:173-187 | Each summary line equals that member's settle-up balance in the currency |
| SettleUpPanel.MemberSummary | components/SettleUpPanel.tsx:159-187 | The loops build exactly the member's summary lines |
| SettleUpPanel.SummaryBlocksAre | components/SettleUpPanel.tsx:158-191 | A block is shown exactly for each member with a non-empty summary, holding that summary |
| SettleUpPanel.PerPersonSummary | components/SettleUpPanel.tsx:154-191 | Given `hasAny`, the summary is shown only when it holds, and then holds exactly the summary blocks |
| SettleUpPanel.PanelContents | components/SettleUpPanel.tsx:83-191 | The panel's settlements per used currency, its `hasAny`, and a per-person summary shown exactly when some currency has a settlement |
| AddExpense.TrimStartFacts | components/AddExpenseModal.tsx:77 | Trimming the start removes exactly a leading run of white space and leaves a non-space first character |
| AddExpense.TrimEndFacts | components/AddExpenseModal.tsx:77 | Trimming the end removes exactly a trailing run of white space and leaves a non-space last character |
| AddExpense.TrimStartBlank | components/AddExpenseModal.tsx:77 | Trimming the start leaves nothing exactly when every character is white space |
| AddExpense.TrimFacts | components/AddExpenseModal.tsx:77 | A trimmed title neither starts nor ends with white space, and it is empty exactly when the title is all white space |
| AddExpense.EvenShareNearest | components/AddExpenseModal.tsx:121 | The even share is the cent nearest to `total / n`, with a half cent rounded up |
| AddExpense.HandleSave | components/AddExpenseModal.tsx:76-123 | A saved expense has the trimmed, non-empty title, a positive total, the form's non-empty payer and split, and one share per selected participant |
| AddExpense.RejectionOrder | components/AddExpenseModal.tsx:77-90 | Each error is reported exactly when its check is the first to fail: blank title, bad total, no payer, no participants, custom sum off by more than a cent |
| AddExpense.SavedExactly | components/AddExpenseModal.tsx:76-90 | A save goes ahead exactly when every check passes. An even split never fails the sum check, and a custom split passes it when within a cent of the total. A mismatch reports both sums |
| AddExpense.CustomToleranceExample | components/AddExpenseModal.tsx:82-90 | Against 100.00, custom entries summing to 99.99 and 100.01 are accepted and 99.98 is rejected |
| AddExpense.SavedShares | components/AddExpenseModal.tsx:116-123 | A saved expense has one share per selected participant, in selection order, and distinct ids when the selection is distinct. It carries the form's total, payer and currency |
| AddExpense.EvenShares | components/AddExpenseModal.tsx:120-121 | In an even split every share is the same: `total / n` to the nearest cent |
| AddExpense.CustomShares | components/AddExpenseModal.tsx:120-122 | In a custom split each share is the entered amount, or 0 if none was entered |
| AddExpense.CustomTotalAgrees | components/AddExpenseModal.tsx:83-85 | The custom sum depends only on the selected participants' entries |
| AddExpense.UnselectedIgnored | components/AddExpenseModal.tsx:82-123 | Entries typed for unselected participants change neither the outcome nor the shares |
| AddExpense.BuiltTotal | components/AddExpenseModal.tsx:116-123 | The shares sum to `n` times the even share, or to the custom sum |
| AddExpense.SavedSharesNearTotal | components/AddExpenseModal.tsx:82-123 | A saved custom split's shares are within a cent of the total. A saved even split's shares are within half a cent per participant. That gap is all the expense adds to the balances' imbalance |
| AddExpense.ParticipantSelection.constructor | components/AddExpenseModal.tsx:43-45 | Every member starts selected, once each, in roster order |
| AddExpense.ParticipantSelection.Toggle | components/AddExpenseModal.tsx:63-71 | The copy-then-delete-or-add step gives `Toggled` of the old selection and keeps it free of repeats |
| AddExpense.WithoutFacts | components/AddExpenseModal.tsx:65-66 | Deleting an id removes exactly that id, keeps the rest distinct, and changes nothing if the id is absent |
| AddExpense.ToggledDistinct | components/AddExpenseModal.tsx:63-71 | A toggle keeps the selection free of repeats |
| AddExpense.ToggledMembership | components/AddExpenseModal.tsx:63-71 | A toggle flips whether the id is selected and leaves every other id's membership and relative order unchanged |
| AddExpense.ToggleTwice | components/AddExpenseModal.tsx:63-71 | Toggling twice restores the same set. The order is kept unless the id was selected, in which case it moves to the end |

## Left out

- The Supabase calls are not modelled: loading expenses, the two inserts and their error branches (`components/AddExpenseModal.tsx:92-114`, `125-139`). `AddExpense.HandleSave` stops at the values the inserts would receive, and the id the database assigns is a parameter.
- The early return when Supabase is not configured or no user is signed in (`components/AddExpenseModal.tsx:74`) depends on the environment, not the form. It is left out.
- Parsing is not modelled (`parseFloat` of the total and of the custom entries). The total arrives as an optional number of cents, with `None` for `NaN`. The custom entries arrive as a map from participant to cents, with no entry for an empty input. The inputs are `type="number"`, so an entry is either empty or numeric.
- Floating-point arithmetic is not modelled: everything is exact integer cents. `Math.round(bal * 100) / 100`, `toFixed(2)` and binary rounding artefacts do not arise.
  With doubles, the matching loop can pass over a debtor whose remainder is just under 0.01: 0.03 - 0.02 is 0.009999999999999998, so the debtor is left unpaid.
  It can also list a remainder just over 0.01 as a 0.01 transfer: 0.05 - 0.04 is 0.010000000000000002. The model never lists such a transfer.
  So on `UnlistedLedger` the source lists a→x and b→y, and leaves z (owed 0.02) unlisted with no 1-cent transfers made. The model lists a→x and b→z, as `SettleUp.UnlistedLedgerSettlements` states.
  The statements about 1-cent transfers that are deducted but not listed (`SettleUp.SettlementAccounts`, `SettleUp.UnlistedCreditor`) hold in exact cents only.
- AddExpense.EvenShare: the source rounds the double nearest to `total / n` with `toFixed(2)`. The model rounds the exact quotient, with a half cent going up. The two can differ when the double lies just below a half cent.
- Error message texts and the formatting of numbers for display are not modelled. The errors are datatype constructors, and the custom mismatch carries both sums.
- `Object.keys` and `Object.entries` list keys that look like array indices first, in numeric order. The model keeps pure insertion order. User ids (UUIDs) and currency codes are never such keys.
- `Array.prototype.sort` is modelled as the stable sort it is required to be. The model does not depend on which stable algorithm is used.
- The per-currency total shown above each settlement list (`components/SettleUpPanel.tsx:116-118`) is display only. It is not modelled.
- Rendering, the modal's other inputs (title, time, linked itinerary item, currency picker) and `handleLinkItem` are not modelled.
- The form's state updates through React's `setState` are not modelled. `ParticipantSelection.Toggle` updates its field directly.
