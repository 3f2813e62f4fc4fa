# Personal-finance pages: goal ledger and statement list

This project models the only stateful logic of a personal-finance web application.

The goals page (`client/src/pages/Metas.tsx`) keeps a list of savings goals and a list of transactions. A transaction may be linked to a goal.
- A deposit into the selected goal adds the amount to the goal's saved amount.
- It also records a linked transaction of the negated amount, so the account balance goes down by what the goal gains.
- Deleting a goal removes only the goal record.
- The page shows the total target, the total saved, the global progress, and a per-goal percentage clamped at 100.

The statement page (`client/src/pages/Extrato.tsx`) holds the month's transactions as the remote table returns them.
- After a successful remote delete, it drops the deleted transaction from its local list.
- It shows the transactions whose lower-cased description contains the lower-cased search term.

The model has three modules:
- `Collections` (`collections.dfy`): an `Option` type, and the order-preserving `Filter` that both pages use, as `Array.prototype.filter`. It proves that a filtered sequence is a subsequence of the original. It also proves that the filter keeps every occurrence of a kept element, and that filters commute.
- `Goals` (`goals.dfy`): the goals page. The class `GoalsPage` holds the two lists and the deposit modal's fields. Its methods `Deposit` and `DeleteGoal` replace the lists the way the page's state setters do. The totals and the percentage are functions.
- `Statement` (`statement.dfy`): the statement page. It has its own transaction record, because the remote table uses `description` and `goal_id` where the goals page uses `desc` and `goalId`. The class `StatementPage` holds the list and the search term. The delete filter and the search filter are functions.

Amounts are exact `real`s. Ids are `int`s. Strings are `seq<char>`.

The goals page divides by a goal's target without checking it. The model keeps the double-precision outcomes of dividing by a zero target:
- a positive amount over zero gives infinity, which the clamp turns into 100, so the goal shows as completed;
- a negative amount over zero gives minus infinity;
- zero over zero gives NaN, which is not completed.

Deleting a transaction (`client/src/pages/Extrato.tsx:73-85`) removes the record from the local list and touches no goal, even a goal the transaction is linked to. The model follows the code.

The dialog that confirms a goal deletion (`client/src/pages/Metas.tsx:95`) says the transaction history is kept but unlinked. Line 98 only filters the goal list and leaves every transaction's `goalId` as it was. The model follows line 98, not the dialog's wording.

## Model

| member | source | states |
|---|---|---|
| Goals.DepositAmount | client/src/pages/Metas.tsx:64-67 | a deposit goes through exactly when a goal is selected, the input is non-empty, and it parses to a number greater than 0; the amount used is the parsed number |
| Goals.CreditAt | client/src/pages/Metas.tsx:70-74 | after crediting, each goal at each position keeps its id, name, target and colour; its saved amount grows by the deposit exactly when its id is the selected id |
| Goals.CreditAbsentId | client/src/pages/Metas.tsx:71-72 | crediting an id that no goal carries leaves the goal list unchanged |
| Goals.DepositConserves | client/src/pages/Metas.tsx:70-85 | for every goal, its saved amount plus the values of the transactions linked to it is the same before and after a deposit |
| Goals.GoalsPage.Deposit | client/src/pages/Metas.tsx:63-90 | a rejected deposit changes no field; an accepted one credits the selected goal's id, prepends one linked transaction (value `-val`, category "Investimento", description "Depósito: " and the goal's name, the given id and date) before the old list, then closes the modal, clears the input and the selection; the goal list keeps its length and ids, and for every goal the saved amount plus the linked transaction values is conserved |
| Goals.GoalsPage.DeleteGoal | client/src/pages/Metas.tsx:92-100 | with confirmation the goal list becomes the goals whose id differs, in order; without it nothing changes; the transaction list (dangling goal ids included) is never modified, as line 98 does, although the dialog at line 95 speaks of unlinking |
| Goals.WithoutGoalSpec | client/src/pages/Metas.tsx:98 | no goal with the deleted id remains; every other goal keeps all its occurrences; the result is a subsequence of the old list; deleting an absent id changes nothing |
| Goals.GoalsPage.OpenDeposit | client/src/pages/Metas.tsx:265-268 | the "add value" button selects the goal and opens the modal |
| Goals.GoalsPage.CloseDepositModal | client/src/pages/Metas.tsx:114 | the close button hides the modal and keeps the selection and the input |
| Goals.GoalsPage.SetDepositValue | client/src/pages/Metas.tsx:140 | typing stores the input text |
| Goals.GoalsPage.constructor | client/src/pages/Metas.tsx:52-60 | the page starts with the stored lists, the modal closed, no goal selected and an empty input |
| Goals.Credit | client/src/pages/Metas.tsx:70-74 | the credited goal list has the same length as the old one; its content position by position is stated by `Goals.CreditAt` |
| Goals.DepositTransaction | client/src/pages/Metas.tsx:77-84 | the deposit's transaction contributes exactly `-val` to the selected goal's linked sum and nothing to any other goal's; its category is "Investimento" and its description "Depósito: " and the goal's name |
| Goals.WithoutGoal | client/src/pages/Metas.tsx:98 | the list after deletion is no longer than the old one and holds only old goals whose id differs (fully characterised by `Goals.WithoutGoalSpec`) |
| Goals.LinkedSum | client/src/pages/Metas.tsx:81-83 | the sum of values of transactions linked to a goal is 0 when no transaction links to it; `Goals.DepositConserves` states what a deposit does to it |
| Goals.TotalTarget | client/src/pages/Metas.tsx:102 | the total target of a non-empty list of goals with positive targets is positive |
| Goals.TotalSaved | client/src/pages/Metas.tsx:103 | the total saved of goals with non-negative saved amounts is non-negative |
| Goals.TotalsAsLeftFold | client/src/pages/Metas.tsx:102-103 | both totals equal the page's left-to-right `reduce`: the last goal added to the total of the goals before it |
| Goals.TotalProgress | client/src/pages/Metas.tsx:102-104 | the global progress is 0 when the total target is not positive; otherwise progress times total target equals 100 times the total saved |
| Goals.SavedAfterCredit | client/src/pages/Metas.tsx:103 | a deposit raises the total saved by the amount added once for each goal carrying the selected id (`Goals.TimesIsProduct`: adding `val` `k` times is `k * val`) |
| Goals.TargetAfterCredit | client/src/pages/Metas.tsx:102 | a deposit leaves the total target unchanged |
| Goals.TotalsAfterDelete | client/src/pages/Metas.tsx:98-103 | the totals before a goal deletion are the totals after it plus the totals of the deleted goals |
| Goals.ProgressBounded | client/src/pages/Metas.tsx:102-104 | when every goal has saved between 0 and its target, the global progress is between 0 and 100 |
| Goals.ProgressOfCompletedGoals | client/src/pages/Metas.tsx:102-104 | when every goal of a non-empty list has reached a positive target, the global progress is at least 100 |
| Goals.Percentage | client/src/pages/Metas.tsx:208 | a finite percentage never exceeds 100; for a non-zero target it is 100 exactly when saved over target reaches 1, and below 100 it times the target equals 100 times the saved amount; it is finite exactly when the target is non-zero or the saved amount is positive; it is NaN exactly for zero over zero; a positive amount over a zero target gives 100 (the clamp of plus infinity); for a positive target and a non-negative saved amount it is at least 0 |
| Goals.IsCompleted | client/src/pages/Metas.tsx:208-209 | a goal is completed exactly when its saved amount reaches a positive target, reaches down to a negative target, or is positive over a zero target |
| Statement.WithoutTransaction | client/src/pages/Extrato.tsx:80 | the list after deletion is no longer than the old one and holds only old transactions whose id differs (fully characterised by `Statement.WithoutTransactionSpec`) |
| Statement.ToLower | client/src/pages/Extrato.tsx:195-196 | the lower-cased string has the same length and lower-cases each character by `Statement.LowerChar` |
| Statement.Includes | client/src/pages/Extrato.tsx:196 | the empty term is always contained, and a contained term is never longer than the text (`Statement.IncludesIffOccurs` gives the exact meaning) |
| Statement.Search | client/src/pages/Extrato.tsx:192-197 | the rows shown are no more than the transactions, and each is a transaction whose description matches the term (`Statement.SearchSpec` gives the exact characterisation) |
| Statement.StatementPage.Rows | client/src/pages/Extrato.tsx:192-197 | every row the table shows is a loaded transaction matching the current search term |
| Collections.Filter | client/src/pages/Extrato.tsx:80 | `Array.prototype.filter`: the result is no longer than the input and holds only input elements satisfying the predicate; `Collections.FilterIsSubsequence`, `Collections.FilterCounts`, `Collections.FilterKeepsAll` and `Collections.FilterCommutes` state order, multiplicities, the keep-all case and commutation |
| Collections.FilterIsSubsequence | client/src/pages/Extrato.tsx:80 | a filtered sequence is a subsequence of the original |
| Collections.FilterCounts | client/src/pages/Extrato.tsx:80 | filtering keeps every occurrence of an element that satisfies the predicate and none of one that does not |
| Statement.WithoutTransactionSpec | client/src/pages/Extrato.tsx:80 | no transaction with the deleted id remains; every other transaction keeps all its occurrences, in the original relative order; deleting an absent id changes nothing |
| Statement.StatementPage.DeleteTransaction | client/src/pages/Extrato.tsx:73-85 | after a successful remote delete the list is the old list without that id; after a failed one it is unchanged; the search term is untouched and no record is altered |
| Statement.StatementPage.constructor | client/src/pages/Extrato.tsx:27-29 | the page holds the loaded transactions and an empty search term |
| Statement.StatementPage.SetSearchTerm | client/src/pages/Extrato.tsx:155 | typing stores the search term |
| Statement.LowerChar | client/src/pages/Extrato.tsx:195-196 | each ASCII capital maps to its own small letter (by the alphabet table); every ASCII or Latin-1 capital maps to the character 32 code points above it; other characters are unchanged; the result is never a capital |
| Statement.ToLowerIdempotent | client/src/pages/Extrato.tsx:195-196 | lower-casing a lower-cased string changes nothing |
| Statement.IncludesIffOccurs | client/src/pages/Extrato.tsx:196 | the left-to-right containment test succeeds exactly when the term occurs at some position of the description |
| Statement.SearchSpec | client/src/pages/Extrato.tsx:192-197 | the rows shown form a subsequence of the transactions; a transaction is shown exactly when its lower-cased description contains the lower-cased term, with every occurrence of it kept |
| Statement.SearchEmptyTerm | client/src/pages/Extrato.tsx:193-197 | an empty search term shows every transaction |
| Statement.SearchIgnoresCase | client/src/pages/Extrato.tsx:193-196 | lower-casing the search term first does not change the rows shown |
| Statement.SearchAfterDelete | client/src/pages/Extrato.tsx:192-197 | searching after a delete shows the rows shown before, less the deleted transaction |

## Left out

- Browser storage: reading the lists from local storage and writing them back as JSON (`client/src/pages/Metas.tsx:33-49`). The constructor takes the stored lists as arguments.
- Network and authentication: the user check, the month query in `loadTransactions`, and the remote delete (`client/src/pages/Extrato.tsx:37-79`). The delete's outcome is the `remoteOk` argument.
- The month range built with `Date` and `toISOString` (`client/src/pages/Extrato.tsx:48-51`). It depends on the date library and the local time zone.
- `parseFloat`: `Deposit` takes the parse result as an argument, with `None` standing for NaN. The model does not tie that argument to the input text.
- Double-precision arithmetic: amounts are exact reals. Rounding and overflow to infinity are not modelled. Division by a zero target is the one exception, modelled in `Percentage`.
- `Date.now()` and `new Date()`: the new transaction's id and date are the `now` and `today` arguments.
- `confirm`, `alert` and toasts: the user's answer to `confirm` is the `confirmed` argument. Alerts and toasts are presentation.
- Statement.LowerChar: lower-cases only ASCII and Latin-1 capitals. JavaScript's `toLowerCase` covers all of Unicode, including mappings that change a string's length.
- The modal's render condition, the loading spinner, the "no transactions" message, number formatting and all markup are presentation. `StatementPage.Rows` is the table once loading has finished.
- The async delete reads the list through a stale closure (`client/src/pages/Extrato.tsx:80`). This matters only when actions interleave; the model runs each action to completion.
- Creating a goal, and creating or editing a transaction, happen outside these two pages. The other pages (`client/src/pages/Dashboard.tsx`, `client/src/pages/Auth.tsx`, `client/src/App.tsx`), `client/src/components/ui/calendar.tsx` and `capacitor.config.ts` hold constants, routing, authentication forms and configuration, and are not part of this model.
