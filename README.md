# Slice It Easy — a verified model of the bill splitter's core

Slice It Easy splits a shared bill. Participants are added by name. Expenses are recorded with a payer and a split among selected participants, either equally or by hand-typed amounts. The bill then shows:

- who paid and who owes what, as a summary;
- each participant's balance;
- a short list of payments that settles everyone up.

This project models that core in Dafny and proves what it promises.

Money is integer cents throughout. Module by module:

- `BillTypes` (`bill_types.dfy`) — the records: participant, expense split, expense and settlement. It also has the participant ids in key order, and `SumOver` with its lemmas.
- `Balances` (`balances.dfy`) — `calculateBalances`, a method with loops proved against `Balance` = paid − owed, and `calculateTotalExpenses`. On a well-formed bill the balances sum to zero.
- `Settlements` (`settlements.dfy`) — `calculateSettlements`:
  - the creditor and debtor lists, stably sorted;
  - the greedy matching loop, a method proved equal to the pure `Greedy`;
  - what the plan pays: only debtors to creditors, never more than a balance, everyone exactly when the balances sum to zero, the largest pair first, and fewer payments than participants.
- `EqualSplits` (`equal_splits.dfy`) — `calculateEqualSplits` as written and corrected, each a method with its counter loop proved against a function.
- `Text` (`text.dfy`) — `trim` and `toLowerCase`.
- `ParticipantForm` (`participant_form.dfy`) — the add-participant form: blank and duplicate-name checks, and the name field as a class.
- `BillState` (`bill_state.dfy`) — the bill hook as a class:
  - the add and remove handlers and reset, each with its full new state;
  - a referential-integrity invariant: every transition keeps it, except that adding an expense keeps it only when the expense's own payer and split members are participants, which the source does not check.
- `ExpenseForm` (`expense_form.dfy`) — the add-expense hook as a class:
  - the ordered validation of a submission;
  - the custom-split loop;
  - toggle and select-all;
  - the remaining-amount indicator, proved to agree with the submission's sum check.
- `ExpenseSummary` (`expense_summary.dfy`) — the summary's total, the paid and owed accumulations (loops over maps), and the chart lists.

Two places where the code does not do what it evidently intends are recorded under "## Findings". Each is modelled twice: once as written, with an input that shows the problem, and once corrected, with the intended property proved. The two forms use the code as written. Their lemmas state exactly when the written code falls short, and what the corrected version guarantees instead.

## Model

| member | source | states |
|---|---|---|
| Balances.CalculateBalances | src/utils/billSplitterUtils.ts:40-60 | one entry per participant id, inactive ones included; each entry is what that id paid minus what it owes over all expenses |
| Balances.BalancesSumToZero | src/utils/billSplitterUtils.ts:49-57 | on a well-formed bill (payers and split members are participants, splits add up to the amount) the balances of the distinct participant ids sum to exactly 0 |
| Balances.PaidSumIsTotal | src/utils/billSplitterUtils.ts:49-51 | summed over any repetition-free id list containing every payer, the paid totals give the bill total |
| Balances.OwedSumIsTotal | src/utils/billSplitterUtils.ts:54-56 | when splits add up to their expense amounts, the owed totals of the split members sum to the bill total |
| Balances.OwedInSumIsSplitsTotal | src/utils/billSplitterUtils.ts:54-56 | within one expense, the per-member owed amounts sum to the splits' total |
| Balances.TotalExpensesConcat | src/utils/billSplitterUtils.ts:154-156 | the total of two runs of expenses is the sum of their totals, so the total does not depend on how the expenses are grouped; `PaidSumIsTotal` and `ExpenseSummary.TotalEqualsPaidSum` tie it to the paid amounts summed per participant |
| Balances.PaidByNonPayer | src/utils/billSplitterUtils.ts:49-51 | an id that paid for nothing has paid 0 |
| Balances.NegatedSum | src/utils/billSplitterUtils.ts:49-57 | the owed amounts that the balances subtract sum to minus their total |
| BillTypes.ParticipantIdsMembership | src/utils/billSplitterUtils.ts:44-46 | an id is among the participant ids exactly when some participant has it |
| BillTypes.Distinct | src/utils/billSplitterUtils.ts:44-46 | the key order of the balances record: the same ids as the list, each once, never more of them than the list has |
| BillTypes.SumOverSubset | src/hooks/useExpenseForm.ts:124-125 | summing over a repetition-free list equals summing over any part of it outside which the function is 0 |
| BillTypes.SumOverSingle | src/utils/billSplitterUtils.ts:49-57 | a function that is nonzero at one id sums to its value there, or to 0 when the id is not listed |
| BillTypes.SumOverAdd | src/utils/billSplitterUtils.ts:49-57 | a sum of a pointwise sum is the sum of the sums |
| Settlements.CalculateSettlements | src/utils/billSplitterUtils.ts:63-112 | returns exactly the greedy plan over the sorted creditor and debtor lists of the bill's balances |
| Settlements.SettleGreedily | src/utils/billSplitterUtils.ts:77-109 | the while loop with head updates and shifts produces exactly `Greedy(creditors, debtors)` |
| Settlements.GreedyStep | src/utils/billSplitterUtils.ts:78-108 | one iteration pays a positive amount from the head debtor to the head creditor and leaves the rest of the plan to the updated lists |
| Settlements.PayCreditor | src/utils/billSplitterUtils.ts:94-102 | a fully paid head creditor is shifted off, otherwise only its remaining credit changes; credits stay positive and their sum drops by the amount |
| Settlements.ChargeDebtor | src/utils/billSplitterUtils.ts:95-108 | a fully settled head debtor is shifted off, otherwise only its remaining debt changes; debts stay negative and their sum rises by the amount |
| Settlements.Positives | src/utils/billSplitterUtils.ts:68-69 | keeps exactly the entries with a positive balance, keys stay distinct; their order is kept (`PositivesWithBalance`) |
| Settlements.Negatives | src/utils/billSplitterUtils.ts:72-73 | keeps exactly the entries with a negative balance, keys stay distinct; their order is kept (`NegativesWithBalance`) |
| Settlements.PositivesWithBalance | src/utils/billSplitterUtils.ts:68-69 | the positive filter keeps the entries of every positive balance in their input order |
| Settlements.NegativesWithBalance | src/utils/billSplitterUtils.ts:72-73 | the negative filter keeps the entries of every negative balance in their input order |
| Settlements.SortDescending | src/utils/billSplitterUtils.ts:70 | the creditor sort is a permutation of its input |
| Settlements.SortAscending | src/utils/billSplitterUtils.ts:74 | the debtor sort is a permutation of its input |
| Settlements.SortDescendingStable | src/utils/billSplitterUtils.ts:70 | the creditor sort is stable: creditors with equal balances stay in key order, which decides who is paid first on a tie |
| Settlements.SortAscendingStable | src/utils/billSplitterUtils.ts:74 | the debtor sort is stable: debtors with equal balances stay in key order |
| Settlements.InsertDescendingStable | src/utils/billSplitterUtils.ts:70 | an inserted creditor goes before the creditors of equal balance that follow it in the input |
| Settlements.InsertAscendingStable | src/utils/billSplitterUtils.ts:74 | an inserted debtor goes before the debtors of equal balance that follow it in the input |
| Settlements.SortDescendingSorted | src/utils/billSplitterUtils.ts:70 | creditors come out largest balance first |
| Settlements.SortAscendingSorted | src/utils/billSplitterUtils.ts:74 | debtors come out most negative first |
| Settlements.SortDescendingKeys | src/utils/billSplitterUtils.ts:68-70 | sorting keeps the creditor keys distinct |
| Settlements.SortAscendingKeys | src/utils/billSplitterUtils.ts:72-74 | sorting keeps the debtor keys distinct |
| Settlements.SortDescendingSum | src/utils/billSplitterUtils.ts:70 | sorting keeps the sum of the credits |
| Settlements.SortAscendingSum | src/utils/billSplitterUtils.ts:74 | sorting keeps the sum of the debts |
| Settlements.PartitionSum | src/utils/billSplitterUtils.ts:68-74 | the credits plus the debts are the sum of all balances |
| Settlements.PartitionLength | src/utils/billSplitterUtils.ts:68-74 | there are no more creditors and debtors together than balance entries |
| Settlements.BalanceEntriesMembers | src/utils/billSplitterUtils.ts:64-68 | the entries of the balances record are exactly the pairs of a participant id and its balance, keys distinct |
| Settlements.CreditorsOfBill | src/utils/billSplitterUtils.ts:68-70 | the creditors are exactly the participants with a positive balance, each once, sorted largest first |
| Settlements.DebtorsOfBill | src/utils/billSplitterUtils.ts:72-74 | the debtors are exactly the participants with a negative balance, each once, sorted most negative first |
| Settlements.CreditorsTieOrder | src/utils/billSplitterUtils.ts:64-70 | creditors with the same balance appear in the key order of the balance record, filter and sort together |
| Settlements.DebtorsTieOrder | src/utils/billSplitterUtils.ts:64-74 | debtors with the same balance appear in the key order of the balance record, filter and sort together |
| Settlements.CreditorsAndDebtors | src/utils/billSplitterUtils.ts:68-74 | both of the above together |
| Settlements.GreedyShape | src/utils/billSplitterUtils.ts:77-109 | every payment is positive, to a creditor and from a debtor; no payments when either list is empty, else at least one and fewer than #creditors + #debtors |
| Settlements.GreedyPaysCreditors | src/utils/billSplitterUtils.ts:82-102 | no creditor receives more than its credit, and each receives exactly its credit when credits and debts cancel |
| Settlements.GreedyChargesDebtors | src/utils/billSplitterUtils.ts:82-108 | no debtor pays more than its debt, and each pays exactly its debt when credits and debts cancel |
| Settlements.PlanPaysDebtorsToCreditors | src/utils/billSplitterUtils.ts:68-91 | every payment of a bill's plan is positive, from a participant with a negative balance to one with a positive balance (so never to itself) |
| Settlements.PlanLength | src/utils/billSplitterUtils.ts:77-109 | the plan is empty exactly when no balance is positive or no balance is negative; otherwise it has fewer payments than distinct participant ids |
| Settlements.PlanNeverOverpays | src/utils/billSplitterUtils.ts:82-108 | a participant receives at most its positive balance and pays at most its debt, nothing on the other side |
| Settlements.PlanShares | src/utils/billSplitterUtils.ts:82-108 | bounds on what one participant receives and pays, exact when the credits and debts cancel |
| Settlements.PlanSettlesEveryone | src/utils/billSplitterUtils.ts:82-108 | on a well-formed bill every participant receives its whole credit or pays its whole debt, ending at exactly 0 |
| Settlements.PlanStartsWithLargestPair | src/utils/billSplitterUtils.ts:68-82 | the first payment goes from the participant with the lowest balance to the one with the highest, for the smaller of the two magnitudes |
| Settlements.HeadBounds | src/utils/billSplitterUtils.ts:68-74 | the head of a sorted creditor (debtor) list has the largest (most negative) balance |
| Settlements.PositiveSum | src/utils/billSplitterUtils.ts:68-69 | credits sum to a positive amount when there are any |
| Settlements.NegativeSum | src/utils/billSplitterUtils.ts:72-73 | debts sum to a negative amount when there are any |
| Settlements.EntrySumOfIds | src/utils/billSplitterUtils.ts:64-68 | the entries' balance sum is the sum of balances over the ids |
| EqualSplits.EqualSplitsAsWritten | src/utils/billSplitterUtils.ts:120-139 | one split per selected id, in order, all marked equal; none for an empty selection |
| EqualSplits.CalculateEqualSplitsAsWritten | src/utils/billSplitterUtils.ts:115-140 | the loop with its decrementing `remainingCents` counter yields exactly the as-written splits |
| EqualSplits.ResidualBounds | src/utils/billSplitterUtils.ts:122-123 | the rounded share is the nearest cent: twice the residual lies between −n and n |
| EqualSplits.AsWrittenSumWhenResidualNonNegative | src/utils/billSplitterUtils.ts:123-132 | with a residual ≥ 0 the as-written splits add up to the amount |
| EqualSplits.AsWrittenNonNegative | src/utils/billSplitterUtils.ts:122-132 | as written, a non-negative amount never yields a negative share |
| EqualSplits.AsWrittenOverchargesWhenResidualNegative | src/utils/billSplitterUtils.ts:123-132 | with a negative residual every as-written split is the rounded share and together they exceed the amount |
| EqualSplits.AsWrittenIsCorrectedWhenResidualNonNegative | src/utils/billSplitterUtils.ts:123-132 | when the share does not round up, the splits as written are exactly the corrected splits |
| EqualSplits.AsWrittenTwoDollarsAmongThree | src/utils/billSplitterUtils.ts:122-132 | 2.00 among three gives 0.67 each, 2.01 in total |
| EqualSplits.CalculateEqualSplits | src/utils/billSplitterUtils.ts:115-140 | the corrected loop, whose counter also climbs back from below, yields exactly the corrected splits |
| EqualSplits.EqualSplits | src/utils/billSplitterUtils.ts:120-139 | one split per selected id, in order, all marked equal |
| EqualSplits.EqualSplitsSumToAmount | src/utils/billSplitterUtils.ts:123-132 | the corrected splits always add up to the amount |
| EqualSplits.EqualSplitsFair | src/utils/billSplitterUtils.ts:125-139 | any two shares differ by at most a cent, and the adjusted shares form a prefix of the selection |
| EqualSplits.EqualSplitsNonNegative | src/utils/billSplitterUtils.ts:122-131 | a non-negative amount never yields a negative share |
| EqualSplits.PrefixTotal | src/utils/billSplitterUtils.ts:125-132 | the first k adjusted shares total k shares plus the cents handed out so far |
| Text.Trim | src/components/AddParticipantsForm.tsx:25 | the result neither starts nor ends with white space |
| Text.TrimBounds | src/components/AddParticipantsForm.tsx:37 | the trimmed name is the part of the input between two white-space runs at its ends |
| Text.TrimBlank | src/components/AddParticipantsForm.tsx:25-28 | trimming gives the empty string exactly when the input is all white space |
| Text.TrimIdempotent | src/components/AddParticipantsForm.tsx:37 | trimming twice is trimming once |
| Text.LeadingWhitespace | src/components/AddParticipantsForm.tsx:25 | the length of the leading white-space run: all white space before it, none at it |
| Text.TrailingWhitespace | src/components/AddParticipantsForm.tsx:25 | the start of the trailing white-space run: all white space from it on, none just before it |
| Text.ToLower | src/components/AddParticipantsForm.tsx:30 | same length, each character lower-cased (ASCII letters only) |
| ParticipantForm.NameSubmissionAsWritten | src/components/AddParticipantsForm.tsx:25-38 | rejects a blank name; accepts exactly when the name is not blank and the untrimmed name matches no existing name ignoring case; the participant gets the fresh id and the trimmed name |
| ParticipantForm.NameSubmission | src/components/AddParticipantsForm.tsx:25-38 | the same with the duplicate check on the trimmed name |
| ParticipantForm.AcceptedNameKeepsNamesUnique | src/components/AddParticipantsForm.tsx:30-40 | with the corrected check, an accepted participant keeps names unique ignoring case |
| ParticipantForm.AcceptedNameIsTrimmed | src/components/AddParticipantsForm.tsx:35-38 | an accepted name is non-empty, has no white space at either end, and is unchanged by another trim |
| ParticipantForm.AsWrittenAcceptsPaddedDuplicate | src/components/AddParticipantsForm.tsx:30-38 | as written, " alice" next to "Alice" is accepted and stored as "alice", a duplicate ignoring case |
| ParticipantForm.CorrectedRejectsPaddedDuplicate | src/components/AddParticipantsForm.tsx:30-33 | the corrected check rejects the same name as a duplicate |
| ParticipantForm.NameField.HandleSubmit | src/components/AddParticipantsForm.tsx:22-42 | with the duplicate check as written on the untrimmed input: on acceptance exactly that participant is passed on and the field is cleared; on rejection nothing is passed on and the typed name is kept |
| ParticipantForm.NameField.SetName | src/components/AddParticipantsForm.tsx:20 | typing sets the field |
| ParticipantForm.NameField.constructor | src/components/AddParticipantsForm.tsx:20 | the field starts empty |
| BillState.Bill.constructor | src/hooks/useBillState.ts:7-13 | a new bill: title "New Bill", dated today, no participants or expenses, participants tab; its references are trivially valid |
| BillState.Bill.AddParticipant | src/hooks/useBillState.ts:37-40 | appends the participant and changes nothing else; keeps references valid |
| BillState.Bill.RemoveParticipant | src/hooks/useBillState.ts:42-54 | refused, changing nothing, exactly when an expense is paid by or split with the id; otherwise drops every participant with that id, keeps the rest in order (the filter `WithoutParticipant`, whose order `WithoutParticipantAppend` states), leaves expenses alone and keeps references valid |
| BillState.Bill.AddExpense | src/hooks/useBillState.ts:56-60 | appends the expense and shows the expenses tab; keeps references valid when the expense's own are |
| BillState.Bill.RemoveExpense | src/hooks/useBillState.ts:62-65 | drops exactly the expenses with that id, in order, participants untouched; keeps references valid |
| BillState.Bill.ResetBill | src/hooks/useBillState.ts:67-80 | nothing to reset or declined: nothing changes; confirmed: empty lists, title "New Bill", dated today, participants tab |
| BillState.WithoutParticipant | src/hooks/useBillState.ts:52 | keeps exactly the participants whose id differs, never more of them |
| BillState.WithoutExpense | src/hooks/useBillState.ts:63 | keeps exactly the expenses whose id differs |
| BillState.WithoutAbsentParticipant | src/hooks/useBillState.ts:52 | filtering out an id nobody has changes nothing |
| BillState.WithoutParticipantAppend | src/hooks/useBillState.ts:52 | the participant filter commutes with appending, so the kept participants stay in order, each as often as before |
| BillState.WithoutExpenseAppend | src/hooks/useBillState.ts:63 | filtering preserves order: it commutes with appending |
| BillState.RemovalKeepsReferencesValid | src/hooks/useBillState.ts:43-52 | removing an unused participant keeps every expense's payer and split members among the participants |
| BillState.RemovalKeepsWellFormed | src/hooks/useBillState.ts:43-52 | removing an unused participant keeps a well-formed bill well formed |
| BillState.AddingParticipantKeepsReferencesValid | src/hooks/useBillState.ts:37-40 | adding a participant keeps references valid |
| ExpenseForm.Form.constructor | src/hooks/useExpenseForm.ts:18-23 | the initial fields: empty texts and payer, equal mode, nothing selected, no custom amounts |
| ExpenseForm.Form.ResetForm | src/hooks/useExpenseForm.ts:25-32 | empty description and amount, payer = first participant's id or "", equal mode, selection and custom amounts cleared |
| ExpenseForm.Form.HandleSubmit | src/hooks/useExpenseForm.ts:34-98 | the outcome is exactly `Submission` of the old fields, computed with calculateEqualSplits as written and the custom-split loop; a rejection keeps every field; an added expense resets the form |
| ExpenseForm.Form.ToggleParticipantSelection | src/hooks/useExpenseForm.ts:100-109 | a selected id is taken out and its custom amount deleted; an unselected one is appended; keeps the form invariant; the remaining ids keep their order (`WithoutIdAppend`) |
| ExpenseForm.Form.HandleSelectAll | src/hooks/useExpenseForm.ts:111-118 | as many selected as participants: clears selection and custom amounts; otherwise selects every participant id in order and keeps the amounts |
| ExpenseForm.Form.SetCustomAmount | src/components/AddExpenseForm.tsx:80-85 | replaces the participant's custom amount, other fields unchanged; keeps the form invariant for a selected participant |
| ExpenseForm.Submission | src/hooks/useExpenseForm.ts:37-94 | each rejection exactly when the earlier checks pass and its own fails, in order: a blank description, an amount that is not a positive number, an empty selection, a refused custom amount, a custom total different from the amount (never in equal mode); an added expense has the fresh id, the trimmed description, the amount, the payer and the selection's splits, which in custom mode add up to the amount |
| ExpenseForm.SplitsFor | src/hooks/useExpenseForm.ts:53-86 | one split per selected id, in selection order, marked equal exactly in equal mode; equal mode (calculateEqualSplits as written) never fails and adds up to the amount exactly when the residual is not negative; custom mode succeeds exactly when every selected amount is accepted |
| ExpenseForm.CustomShare | src/hooks/useExpenseForm.ts:62-67 | an accepted custom amount is never negative |
| ExpenseForm.CustomSplits | src/hooks/useExpenseForm.ts:58-75 | splits exactly when every selected amount is accepted, one per selected id with that amount and not marked equal; otherwise names a selected id whose amount is refused |
| ExpenseForm.CollectCustomSplits | src/hooks/useExpenseForm.ts:58-75 | the loop yields exactly the custom splits of the selection, or the first selected participant whose amount is refused; its running total is the splits' total |
| ExpenseForm.CustomSplitsKeepsFirstInvalid | src/hooks/useExpenseForm.ts:61-67 | the first refused amount decides the rejection however many participants follow |
| ExpenseForm.SubmittedExpenseIsConsistent | src/hooks/useExpenseForm.ts:53-94 | an added expense has a trimmed non-blank description, a positive amount, one non-negative split per selected id in order, marked equal exactly in equal mode; its splits add up to the amount exactly when it was split by hand or its equal share did not round up |
| ExpenseForm.SubmittedExpenseKeepsBillWellFormed | src/hooks/useExpenseForm.ts:88-96 | adding a submitted expense whose payer and selection are participants keeps the bill well formed exactly when it was split by hand or its equal share did not round up |
| ExpenseForm.CorrectedSplitKeepsBillWellFormed | src/hooks/useExpenseForm.ts:53-96 | with the corrected equal split in its place, every added expense keeps a well-formed bill well formed |
| ExpenseForm.SubmittedExpenseReferences | src/hooks/useExpenseForm.ts:88-94 | an added expense refers only to the payer and the selected participants |
| ExpenseForm.RemainingMatchesSumCheck | src/hooks/useExpenseForm.ts:120-127 | while only selected participants have custom amounts, the remaining amount is the amount minus the splits' total, so it is 0 exactly when the submission's sum check passes |
| ExpenseForm.AllocatedIsSumOverKeys | src/hooks/useExpenseForm.ts:124-125 | the allocated sum is the sum of the numeric custom amounts over their keys |
| ExpenseForm.CustomSplitsTotal | src/hooks/useExpenseForm.ts:69-75 | the custom splits' total is the sum of the selected participants' amounts |
| ExpenseForm.Toggled | src/hooks/useExpenseForm.ts:100-108 | the toggled id is selected exactly when it was not; other ids are unaffected; no repetitions appear |
| ExpenseForm.ToggleTwice | src/hooks/useExpenseForm.ts:100-108 | toggling an unselected participant twice restores the selection |
| ExpenseForm.WithoutId | src/hooks/useExpenseForm.ts:102 | keeps exactly the other ids, without repetitions if there were none; their order is kept (`WithoutIdAppend`) |
| ExpenseForm.WithoutIdAppend | src/hooks/useExpenseForm.ts:102 | filtering an id out commutes with appending: the other ids stay in their order |
| ExpenseForm.SetEntry | src/components/AddExpenseForm.tsx:80-85 | an existing key keeps its place, a new key goes last |
| ExpenseForm.SetEntryLookup | src/components/AddExpenseForm.tsx:80-85 | after setting, the id reads the new value and every other id reads what it read before |
| ExpenseForm.RemoveEntry | src/hooks/useExpenseForm.ts:103-105 | the deleted id reads nothing, other ids read what they read before, keys are the old keys without it |
| ExpenseForm.Lookup | src/hooks/useExpenseForm.ts:62 | finds a value exactly for a present key, and that entry is there |
| ExpenseSummary.Summarize | src/components/ExpenseSummary.tsx:12-60 | nothing without participants or expenses; otherwise the total, paid and owed per id (absent keys read as 0), paid − owed = the balance, and the two chart lists |
| ExpenseSummary.PaidByData | src/components/ExpenseSummary.tsx:26-33 | a key for each payer met; each id's value is what it paid |
| ExpenseSummary.OwedByData | src/components/ExpenseSummary.tsx:36-45 | a key for each split member met; each id's value is the sum of its split amounts |
| ExpenseSummary.ChartRowsMembers | src/components/ExpenseSummary.tsx:48-60 | the chart rows are exactly the participants with a positive total, with that total |
| ExpenseSummary.ChartRows | src/components/ExpenseSummary.tsx:48-60 | at most one row per participant |
| ExpenseSummary.ChartRowsAppend | src/components/ExpenseSummary.tsx:48-60 | rows keep participant order |
| ExpenseSummary.TotalEqualsPaidSum | src/components/ExpenseSummary.tsx:23-33 | the total equals the sum of the paid values over the payers |
| ExpenseSummary.TotalEqualsOwedSum | src/components/ExpenseSummary.tsx:23-45 | when splits add up to their amounts, the owed values also sum to the total |
| ExpenseSummary.SplitMembersOfListsAll | src/components/ExpenseSummary.tsx:36-45 | every split member of every expense gets an owed key |

The rows above state their properties in terms of these definitions. Each one models the source lines given:

- `Balances.Paid`, `Balances.Owed` and `Balances.Balance` — the two accumulations of `calculateBalances` (src/utils/billSplitterUtils.ts:49-57).
- `Balances.TotalExpenses` — `calculateTotalExpenses` (src/utils/billSplitterUtils.ts:154-156). It is tied to the other definitions by `TotalExpensesConcat`, `PaidSumIsTotal` and `ExpenseSummary.TotalEqualsPaidSum`.
- `Settlements.Greedy` and `Settlements.SettlementPlan` — the matching loop and `calculateSettlements` (src/utils/billSplitterUtils.ts:63-112). The loop methods are proved equal to them.
- `EqualSplits.RoundedShare` and `EqualSplits.Residual` — `equalAmount` and `remainingCents` (src/utils/billSplitterUtils.ts:122-123). `ResidualBounds` relates them.
- `Text.IsWhitespace` — the white space that `trim` removes.
- `ParticipantForm.NameTaken` — the duplicate test (src/components/AddParticipantsForm.tsx:30).
- `BillState.IsUsedInExpenses` — `isUsedInExpenses` (src/hooks/useBillState.ts:43-45). `Bill.RemoveParticipant` refuses exactly when it holds.
- `ExpenseForm.RemainingAmount` — `calculateRemainingAmount` (src/hooks/useExpenseForm.ts:120-127). `RemainingMatchesSumCheck` ties it to the submission's sum check.

## Left out

- Persistence: saving and loading through `localStorage`, and the load and autosave effects, are browser I/O.
- `generateId` draws on `Math.random`. Ids are opaque values the caller passes in.
- Toasts are UI side effects and are dropped. `confirm()` is a boolean parameter.
- The clock that dates a new bill is a `today` parameter.
- Floating point as such: NaN, binary rounding noise and `parseFloat` string parsing.
  - Money is whole cents.
  - A numeric text field is already parsed: empty, a number of cents, or not a number.
  - Amounts typed with more than two decimals are not modelled. The source stores them unrounded.
- Balance entries for ids that are not participants are not modelled. JavaScript creates a NaN entry for such an id, for example an empty payer. The NaN is never positive or negative, so settlements ignore it. The model drops these contributions instead.
- Text.ToLower: only ASCII letters are lowered. `toLowerCase` also maps other cased Unicode letters, some of them to more than one character. That is not modelled, because strings here are plain character sequences without Unicode case tables.
- The equal split's rounding of `amount / n` to the cent rounds halves away from zero. Binary noise in `toFixed` is not modelled.
- The `participants` argument of `calculateEqualSplits` is unused by the source and is not modelled.
- `Settlements.SettleGreedily` works on sequence values. A head update is a sequence update and a `shift` drops the head. Sharing of the two arrays with other code is not modelled, since none exists.
- The setters for the bill title, bill date, active tab, description, amount, payer and split mode assign one field each and are not modelled.
- `BillState.Bill.AddParticipant` does not require a fresh id. The source does not check for one either.
- ExpenseForm.CustomShare: the contract states only that accepted amounts are non-negative. That a missing or empty amount counts 0 is in its definition, and the rejection of negative or non-numeric text is stated through `CustomSplits` and `Submission`.
- Object keys that look like integers come first in JavaScript's key order. The model uses insertion order throughout.
- Rendering and layout components, and the chart drawing, are not modelled.

## Findings

| source | as written | input that shows it | evidently intended | confidence | as-written member | corrected member |
|---|---|---|---|---|---|---|
| src/utils/billSplitterUtils.ts:129-132 | only a positive residual is handed out; when the share rounds up, the splits exceed the amount | 2.00 split among 3: shares 0.67, 0.67, 0.67, total 2.01 | the splits add up to the expense amount | high (not executed) | EqualSplits.AsWrittenTwoDollarsAmongThree | EqualSplits.EqualSplitsSumToAmount |
| src/components/AddParticipantsForm.tsx:30 | the duplicate check compares the untrimmed input, but the trimmed name is stored | " alice" added while "Alice" exists is accepted as "alice" | no two participants share a name ignoring case | high (not executed) | ParticipantForm.AsWrittenAcceptsPaddedDuplicate | ParticipantForm.AcceptedNameKeepsNamesUnique |
