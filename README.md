# Library lending rules, modelled in Dafny

This project models the lending and account rules of the Express library
application in `library-management-system/app.js`. It also proves what those
rules promise.

The application keeps two kinds of stored record:

- **book** — a title, the copies owned (`quantity`), the copies on loan
  (`issued`) and a state, Available or Issued.
- **account** — a staff or user account. It has a role and unpaid `fines`.
  It holds the open loans (`issuedBooks`) and the closed ones with their fines
  (`returnHistory`). It also has the login counters, a lock timestamp and a
  soft-delete flag.

The handlers modelled are:

- issuing a copy to a borrower (a name and a phone number) on a staff account;
- returning one copy;
- the bulk return of every open loan;
- a login attempt with its lockout;
- staff registration;
- the maintenance switch;
- two read-only reports: a borrower's statistics and the top five borrowers.

The project has these modules:

- `Fines` (`fines.dfy`) holds the overdue-fine formula. The elapsed time is the
  absolute difference of two millisecond timestamps, rounded up to whole days.
  Seven days are free, and each further day costs 1.
- `Records` (`records.dfy`) holds the books, accounts and loan records, with
  the first-match lookups that `findOne` and `findIndex` perform.
- `Quotas` (`quotas.dfy`) holds the loan counts behind the Assistant limits (20
  loans, 5 of one title) and the borrower limits. A borrower may hold 5 active
  loans across every account, and never two of one title. The module also has
  the borrower-count loop of the issue handler.
- `Lockout` (`lockout.dfy`) holds the login state machine:
  - a lock that is in force blocks the attempt;
  - an expired lock gives fresh tries;
  - a correct password clears the counter;
  - the tenth consecutive failure locks the account for 60000 ms.
- `StaffNames` (`staffnames.dfy`) holds the staff name rules and the name a
  soft-deleted account is given when its username is reused. The Librarian must
  be `lib0.0`, and Assistants must match `^as([1-9]|10)$`.
- `Invariants` (`invariants.dfy`) holds the rules every handler preserves:
  - book counts are consistent with the state;
  - the login counters are valid;
  - the Assistant limits hold;
  - the borrower limits hold, with no duplicate loan;
  - there is at most one active Librarian and at most ten active Assistants;
  - usernames are unique, which the schema's unique index enforces.
- `Settlement` (`settlement.dfy`) holds the per-account step of the bulk
  return. It also proves that closing all loans at once is the same as
  returning them one by one.
- `Circulation` (`library.dfy`) holds the `Library` class, whose methods are
  the handlers. Each method takes the clock `now` as a parameter. The login
  method also takes the outcome `isMatch` of the password comparison. Each
  handler's checks appear as a function (`IssueCheck`, `ReturnCheck`,
  `StaffCheck`) in the handler's own order, and the first failing check
  decides the answer.
- `Reports` (`reports.dfy`) holds the borrower-statistics search and the
  top-borrower ranking.

## Model

| member | source | states |
|---|---|---|
| Fines.Fine | library-management-system/app.js:1764-1771 | the fine is 0 exactly when the rounded-up elapsed days are at most 7, and otherwise is the days beyond 7 |
| Fines.CeilDaysCovers | library-management-system/app.js:1767 | the rounded-up day count is the least number of whole days covering the elapsed milliseconds |
| Fines.FineIsLeastCoveringCharge | library-management-system/app.js:1575-1578 | the bulk return's fine is the least number of chargeable days that, with the grace period, covers the elapsed time |
| Fines.FineIsSymmetric | library-management-system/app.js:1766 | swapping issue and return timestamps gives the same fine (absolute difference) |
| Fines.FineExamples | library-management-system/app.js:1767-1771 | 10 days cost 3; exactly 7 days cost 0; 7.2 days round up to 8 and cost 1; a return before the issue is charged the same |
| Records.NewAccount | library-management-system/app.js:26-50 | a new account has the given name and role, no loans, no history, zero fines and counters, no lock, no original username, not deleted |
| Records.FindBook | library-management-system/app.js:1713 | the lookup returns the first book with the title, or none when no book has it |
| Records.FindAccount | library-management-system/app.js:1673 | the lookup returns the first account with the username, or none |
| Records.FindLoan | library-management-system/app.js:1757-1759 | the lookup returns the first loan of the (title, name, phone) triple, or none when no loan matches |
| Records.RemoveAt | library-management-system/app.js:1784 | splice removes exactly the element at the index and keeps the others in order |
| Quotas.CountBorrowerLoans | library-management-system/app.js:1693-1704 | the nested loop returns the borrower's active-loan count over all accounts, and whether one of those loans is the title |
| Quotas.LoanCountPositive | library-management-system/app.js:1701 | a list's triple count is positive exactly when the list holds a loan of the triple |
| Quotas.ActiveCountPositive | library-management-system/app.js:1697-1704 | the triple count over all accounts is positive exactly when some account holds a loan of the triple |
| Quotas.ActiveRoleCountPositive | library-management-system/app.js:1123-1124 | some non-deleted account has the role exactly when the count of such accounts is positive |
| Lockout.Attempt | library-management-system/app.js:1017-1050 | a lock in force blocks and changes nothing; a correct password logs in and clears counter and lock; a wrong one adds one to both counters, restarting the consecutive count and clearing the lock after an expired lock and otherwise keeping the lock field, and locks for 60000 ms exactly when the consecutive count reaches 10, counting from 0 after an expired lock; only the login fields change; the counter invariant is kept |
| Lockout.LockedAttemptsChangeNothing | library-management-system/app.js:1020-1022 | any series of attempts made while the lock is in force leaves the account unchanged |
| Lockout.FailuresAccumulate | library-management-system/app.js:1041-1043 | without a lock, n wrong passwords below the threshold add n to both counters and change nothing else |
| Lockout.ThresholdFailureLocks | library-management-system/app.js:1044-1048 | the failure that reaches 10 locks the account until now + 60000 and restarts the counter |
| StaffNames.AssistantNamesAreNumbered | library-management-system/app.js:1129 | the pattern admits exactly the ten names "as" followed by 1 to 10 |
| StaffNames.RetiredName | library-management-system/app.js:1111-1112 | the retired name extends the old one, so it differs from it, and it is neither the Librarian name nor an Assistant name |
| Invariants.IssueKeepsBookConsistent | library-management-system/app.js:1714-1718 | issuing from a book with stock keeps issued within quantity, and the state becomes Issued exactly when the last copy goes out |
| Invariants.ReturnKeepsBookConsistent | library-management-system/app.js:1751-1753 | the unconditional reset to Available on return agrees with the state recomputed from the counts |
| Invariants.AddLoanKeepsBorrowerRules | library-management-system/app.js:1697-1711 | a loan added after both borrower checks passed keeps every borrower within 5 loans and every triple at most once |
| Invariants.RemoveLoanKeepsBorrowerRules | library-management-system/app.js:1784 | removing a loan keeps both borrower rules |
| Invariants.SameLoansKeepBorrowerRules | library-management-system/app.js:1017-1050 | a change that touches no loan list (login, rename) keeps both borrower rules |
| Invariants.NoLoansSatisfyBorrowerRules | library-management-system/app.js:1590 | with every loan list empty, both borrower rules hold |
| Invariants.AddLoanKeepsStaffQuota | library-management-system/app.js:1681-1688 | an Assistant below both limits stays within them after one more loan |
| Invariants.RemoveLoanKeepsStaffQuota | library-management-system/app.js:1784 | removing a loan keeps the Assistant limits |
| Settlement.CloseAll | library-management-system/app.js:1573-1589 | one history record per loan, in loan order, each with the loan's fields, the common return date and its fine |
| Settlement.SettledCloses | library-management-system/app.js:1571-1592 | a settled account has no open loan, its old history as a prefix followed by one record per former loan, its fines raised by their sum, and every other field unchanged |
| Settlement.SettledWithoutLoans | library-management-system/app.js:1572 | an account without loans is left as it is |
| Settlement.SettleAccount | library-management-system/app.js:1573-1590 | the per-account loop yields the settled account |
| Settlement.SettleAfterFirstReturn | library-management-system/app.js:1757-1784 | returning the first open loan and then settling the rest equals settling all |
| Settlement.SettledIsReturnEach | library-management-system/app.js:1573-1590 | the bulk return of one account equals returning its loans one by one, in order, at the same date |
| Circulation.DuplicateMeansHeld | library-management-system/app.js:1697-1711 | once the earlier checks pass, an issue is refused as a duplicate exactly when some account holds a loan of the same title to the same borrower |
| Circulation.CreatedStaffNames | library-management-system/app.js:1119-1140 | a registration that succeeds is a Librarian named lib0.0 or an Assistant named as1 to as10 |
| Circulation.IssueKeepsInvariant | library-management-system/app.js:1713-1726 | every library rule survives an issue that passed its checks |
| Circulation.ReturnKeepsInvariant | library-management-system/app.js:1751-1785 | every library rule survives a return that passed its checks |
| Circulation.ReturnUndoesIssue | library-management-system/app.js:1713-1785 | returning the loan an issue just made passes every return check; it finds that loan; it gives back the catalogue; it leaves the account as before, plus one history record and its fine |
| Circulation.IssuePassed | library-management-system/app.js:1673-1723 | an issue that passes its checks has found a non-deleted account and a book with a copy in stock, and that account holds no loan of the triple |
| Circulation.IssuedLoanIsReturnable | library-management-system/app.js:1742-1759 | after an issue, the return's checks pass and it finds the new loan at the end of the list |
| Circulation.ReturnRestores | library-management-system/app.js:1751-1784 | restocking the lent copy and discharging the new loan restore the book, and the account apart from history and fines |
| Circulation.NewLoanIsFirst | library-management-system/app.js:1757-1759 | a loan appended to an account holding none of its triple is the one findIndex returns, and splicing it out gives back the old list |
| Circulation.ReturnAllKeepsInvariant | library-management-system/app.js:1571-1594 | every library rule survives the bulk return |
| Circulation.AttemptKeepsInvariant | library-management-system/app.js:1017-1050 | every library rule survives a login attempt |
| Circulation.FreeNameKeepsInvariant | library-management-system/app.js:1108-1113 | renaming the deleted holder of a name keeps every rule and every role count, and leaves no account with the name |
| Circulation.RenameKeepsUnique | library-management-system/app.js:27 | renaming an account to an unused name keeps usernames unique and frees the old name |
| Circulation.AddStaffKeepsInvariant | library-management-system/app.js:1142-1144 | a new account under a free name, within the role caps, keeps every rule |
| Circulation.Library.constructor | library-management-system/app.js:12 | the library starts with maintenance mode off over a consistent store |
| Circulation.Library.ToggleMaintenance | library-management-system/app.js:1431-1439 | the switch flips and nothing else changes |
| Circulation.Library.Lend | library-management-system/app.js:1713-1726 | the success saves: one more copy of the book out, and the loan appended to the account |
| Circulation.Library.Issue | library-management-system/app.js:1670-1730 | the answer is the first failing check in the handler's order; a refusal changes nothing; a success lends the first book with the title to the first account with the username, dated now |
| Circulation.Library.TakeBack | library-management-system/app.js:1751-1785 | the return's saves: one copy back, with the state set to Available; the loan moved from the open list to the history with its fine; the fine added |
| Circulation.Library.Return | library-management-system/app.js:1733-1794 | refused exactly when the return check fails, with its reason and nothing changed (deleted accounts may return); otherwise the first matching loan is discharged and its fine is the result |
| Circulation.Library.ReturnAll | library-management-system/app.js:1567-1596 | every account is settled at one return date and every book is reset to no copies out, Available |
| Circulation.Library.Login | library-management-system/app.js:1006-1054 | maintenance refuses every name but lib0.0 before any lookup; a missing or deleted account is unknown; otherwise the answer and the saved account are those of one attempt |
| Circulation.Library.SaveStaff | library-management-system/app.js:1142-1144 | the new account is appended with schema defaults |
| Circulation.Library.CreateStaff | library-management-system/app.js:1104-1150 | the answer is the staff check; a taken name or a rename collision changes nothing; any later refusal keeps the rename; a success adds the account after the rename |
| Reports.BorrowerStats | library-management-system/app.js:1294-1349 | an empty query asks for a term; otherwise "no records" exactly when no record matches, else the totals over every account, with borrowed = returned + not returned |
| Reports.LoanCountInStats | library-management-system/app.js:1304-1305 | a loan an account's borrower quota counts is one that account's search shows as not returned |
| Reports.QuotaCountInStats | library-management-system/app.js:1302-1317 | the search's not-returned count is never below the borrower quota count for the same name |
| Reports.ClosedOfCloseAll | library-management-system/app.js:1581-1588 | closing loans turns each matching active loan into one matching history record |
| Reports.SettledStats | library-management-system/app.js:1571-1592 | settling an account moves every matching active loan to the returned ones and never lowers the fines shown |
| Reports.ReturnAllStats | library-management-system/app.js:1567-1594 | after the bulk return the search shows the same borrowed total, none of it still active; the returned count grows by the former active count; fines are no lower |
| Reports.TallyLoans | library-management-system/app.js:1389-1393 | the loop over the active loans bumps the tally once per set borrower name, in order |
| Reports.TallyHistory | library-management-system/app.js:1395-1399 | the loop over the history does the same |
| Reports.CountBorrowers | library-management-system/app.js:1386-1399 | the tally over every account, active loans then history, is the fold over all borrower names |
| Reports.FoldCounts | library-management-system/app.js:1386-1399 | the tally holds each set borrower name once, with its number of occurrences, and no other name |
| Reports.FoldOrder | library-management-system/app.js:1386-1401 | the tally's names, and so the order of the entries `Object.entries` sorts, are the old names followed by each new set name at its first occurrence |
| Reports.FirstSeenMembers | library-management-system/app.js:1389-1398 | a name is first seen in a list exactly when it is set, not already tallied, and occurs in the list |
| Reports.InsertSorted | library-management-system/app.js:1401 | inserting into a count-sorted list keeps it sorted and adds exactly the entry |
| Reports.SortByCountSorts | library-management-system/app.js:1401 | the sort is sorted by count, highest first, and is a permutation |
| Reports.EntriesDistinct | library-management-system/app.js:1386-1401 | the tally's entries, like the keys of one object, name each borrower once |
| Reports.SubDistinct | library-management-system/app.js:1401 | any sub-multiset of entries with distinct names, such as the sorted cut, has distinct names |
| Reports.TopFiveIsTop | library-management-system/app.js:1401 | the cut is sorted, of length min(5, n), drawn from the entries, and any entry left out has a count no higher than any kept |
| Reports.RankingOfTally | library-management-system/app.js:1401 | the ranking of a correct tally lists distinct set names with their true counts, and leaves a name out only when five higher-or-equal ones are shown |
| Reports.TopBorrowers | library-management-system/app.js:1381-1402 | at most five entries, sorted, no name twice; each is a set borrower name with its number of loans, active and returned; a borrower left out means five are shown, none with fewer loans |

## Left out

- The Express routing, the page rendering, the redirect messages and `app.listen` are transport, so they are not modelled.
- The MongoDB connection and the seed catalogue are storage and data. The model uses first-match lookups in insertion order in place of `findOne`.
- The two saves of an issue or a return are separate writes with no transaction. The model makes each handler one atomic step, so interleavings and partial failures are not modelled. The one storage failure it keeps is `StorageError`: the rename of a deleted account colliding with an existing name under the unique index.
- bcrypt hashing and comparison are foreign calls. The comparison's outcome is the input `isMatch`, and the account keeps no password.
- The handlers read `Date.now()` several times. Each model step uses one `now` for all of them. So a lock that ends exactly at `now` is neither in force nor expired, as in the source when both reads agree.
- `/history` searched by staff username, the sort of the borrower records by date, and the displayed record list are left out. Only the borrower statistics are modelled.
- The CSV export, PDF receipts, email and the book search, sort and filter are not part of this model. The rules modelled here do not read what they produce.
- The routes for password reset and change, account deletion (`/delete-user`, `/admin/delete-user`), `/admin/reset-history`, `/add` and `/delete` are not part of this model. They write the store between the modelled steps:
  - deletion sets `isDeleted`, which issue, login and the staff caps read;
  - the history reset empties `returnHistory` and `fines`, which both reports read;
  - adding and deleting books change the catalogue that issue and return search.

  Every modelled step starts from any store that satisfies `Invariants.LibraryInvariant`. The model does not prove that these routes keep that invariant.
- `/register` (app.js:1071-1096) creates a plain user account and is not part of this model. `Circulation.Library.SaveStaff` is the save of the staff registration only.
- The Mongo schema's default quantity of 10 and the book fields the lending rules never read are left out. Examples are author, pages and price.
- The admin page computes only the top borrowers. No other ranking is modelled.
- `Reports.LowerCase`: JavaScript's `toLowerCase` folds all of Unicode, but the model folds ASCII letters only.
- `Reports.TopBorrowers`: `Object.entries` puts integer-like keys first, in ascending order. The model keeps every key in first-seen order, so among borrowers with equal counts the order may differ. The proved properties of the top five do not depend on the order of ties.
- `Reports.TopBorrowers` and `Reports.CountBorrowers`: the source tallies into a plain `{}` object. So a borrower name that is an `Object.prototype` key does not start at 0:
  - with `constructor` or `toString`, the count becomes a string and the sort comparator returns NaN;
  - with `__proto__`, the assignment is ignored and the name never appears.

  The model counts every non-empty name from 0, like an ordinary key, and so does not capture these cases.
- `Circulation.Library.Login`: the source saves the reset of an expired lock at once and saves again at the end. The model makes only the final save, which writes the same account.
- The return handler's second `findIndex` guard (`index > -1`) cannot fail after the `some` check, so the model does not treat it as an outcome.
- `Circulation.Library.Issue`: the loan's issue date is the `now` parameter, standing for the schema default `Date.now`.

Three behaviours of `app.js` are kept as written:

- Book lookup is first-match by title, and titles repeat in the seed catalogue.
- Return sets the state to Available unconditionally. `Invariants.ReturnKeepsBookConsistent` shows this agrees with the state recomputed from the counts.
- Registering a name held by a deleted account renames that account before the role checks. The rename stays even when those checks refuse.
