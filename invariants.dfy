/** The consistency conditions every lending, login and registration step
    preserves, and the lemmas that show how a single change to one book or
    one account keeps them. */
module Invariants {
  import opened Records
  import opened Quotas
  import opened Lockout
  import opened StaffNames

  /** Copies on loan never exceed copies owned, and the state says Issued
      exactly when every copy is out. */
  predicate BookConsistent(b: Book)
  {
    0 < b.quantity && b.issued <= b.quantity && (b.bookState == Issued <==> b.issued == b.quantity)
  }

  predicate BooksConsistent(books: seq<Book>)
  {
    forall i :: 0 <= i < |books| ==> BookConsistent(books[i])
  }

  /** An Assistant holds at most 20 active loans and at most 5 of one title. */
  ghost predicate WithinStaffQuota(a: Account)
  {
    a.role == AssistantRole ==>
      |a.issuedBooks| <= MaxAssistantLoans &&
      forall t :: TitleCount(a.issuedBooks, t) <= MaxAssistantCopies
  }

  ghost predicate AccountConsistent(a: Account)
  {
    CountersValid(a) && WithinStaffQuota(a)
  }

  ghost predicate AccountsConsistent(accounts: seq<Account>)
  {
    forall i :: 0 <= i < |accounts| ==> AccountConsistent(accounts[i])
  }

  /** No borrower (name, phone) holds more than 5 active loans across all accounts. */
  ghost predicate BorrowersWithinQuota(accounts: seq<Account>)
  {
    forall name, phone :: ActiveCount(accounts, name, phone, None) <= MaxBorrowerLoans
  }

  /** No (title, name, phone) triple is on loan twice at once, on any accounts. */
  ghost predicate NoDuplicateLoans(accounts: seq<Account>)
  {
    forall name, phone, title :: ActiveCount(accounts, name, phone, Some(title)) <= 1
  }

  /** At most one non-deleted Librarian and at most ten non-deleted Assistants. */
  predicate StaffCapsRespected(accounts: seq<Account>)
  {
    ActiveRoleCount(accounts, LibrarianRole) <= 1 && ActiveRoleCount(accounts, AssistantRole) <= MaxAssistants
  }

  /** The unique index on username: no two accounts share one. */
  predicate UniqueUsernames(accounts: seq<Account>)
  {
    forall i, j :: 0 <= i < j < |accounts| ==> accounts[i].username != accounts[j].username
  }

  ghost predicate LibraryInvariant(books: seq<Book>, accounts: seq<Account>)
  {
    BooksConsistent(books) && AccountsConsistent(accounts) && BorrowersWithinQuota(accounts)
    && NoDuplicateLoans(accounts) && StaffCapsRespected(accounts) && UniqueUsernames(accounts)
  }

  /** Issuing a copy of a consistent book with stock left keeps it consistent;
      the state turns Issued exactly when the last copy goes out. */
  lemma IssueKeepsBookConsistent(b: Book)
    requires BookConsistent(b) && b.issued < b.quantity
    ensures var nb := b.(issued := b.issued + 1,
                         bookState := if b.issued + 1 == b.quantity then Issued else b.bookState);
            BookConsistent(nb)
  {
  }

  /** Returning a copy of a consistent book sets the state to Available
      unconditionally; that is the state recomputed from the counts, since
      after the decrement issued < quantity. */
  lemma ReturnKeepsBookConsistent(b: Book)
    requires BookConsistent(b) && b.issued > 0
    ensures BookConsistent(b.(issued := b.issued - 1, bookState := Available))
    ensures (if b.issued - 1 == b.quantity then Issued else Available) == Available
  {
  }

  /** Adding a loan of a title, when the borrower holds fewer than 5 loans
      and not that title, keeps the borrower quota and the no-duplicate rule. */
  lemma AddLoanKeepsBorrowerRules(accounts: seq<Account>, k: nat, loan: Loan)
    requires k < |accounts|
    requires BorrowersWithinQuota(accounts) && NoDuplicateLoans(accounts)
    requires ActiveCount(accounts, loan.borrowerName, loan.borrowerPhone, None) < MaxBorrowerLoans
    requires ActiveCount(accounts, loan.borrowerName, loan.borrowerPhone, Some(loan.bookName)) == 0
    ensures var updated := accounts[k := accounts[k].(issuedBooks := accounts[k].issuedBooks + [loan])];
            BorrowersWithinQuota(updated) && NoDuplicateLoans(updated)
  {
    var a := accounts[k];
    var na := a.(issuedBooks := a.issuedBooks + [loan]);
    var updated := accounts[k := na];
    forall name, phone, title: Option<string>
      ensures ActiveCount(updated, name, phone, title) ==
              ActiveCount(accounts, name, phone, title) + (if BorrowerLoan(loan, name, phone, title) then 1 else 0)
    {
      ActiveCountUpdate(accounts, k, na, name, phone, title);
      LoanCountConcat(a.issuedBooks, [loan], name, phone, title);
      assert [loan][..0] == [];
    }
  }

  /** Taking one loan out of an account keeps both borrower rules. */
  lemma RemoveLoanKeepsBorrowerRules(accounts: seq<Account>, k: nat, i: nat, na: Account)
    requires k < |accounts| && i < |accounts[k].issuedBooks|
    requires na.issuedBooks == RemoveAt(accounts[k].issuedBooks, i)
    requires BorrowersWithinQuota(accounts) && NoDuplicateLoans(accounts)
    ensures BorrowersWithinQuota(accounts[k := na]) && NoDuplicateLoans(accounts[k := na])
  {
    var updated := accounts[k := na];
    forall name, phone, title: Option<string>
      ensures ActiveCount(updated, name, phone, title) <= ActiveCount(accounts, name, phone, title)
    {
      ActiveCountUpdate(accounts, k, na, name, phone, title);
      LoanCountRemoveAt(accounts[k].issuedBooks, i, name, phone, title);
    }
    forall name, phone ensures ActiveCount(updated, name, phone, None) <= MaxBorrowerLoans {
      assert ActiveCount(accounts, name, phone, None) <= MaxBorrowerLoans;
    }
    forall name, phone, title ensures ActiveCount(updated, name, phone, Some(title)) <= 1 {
      assert ActiveCount(accounts, name, phone, Some(title)) <= 1;
    }
  }

  /** A change that keeps every account's loan list keeps both borrower rules. */
  lemma SameLoansKeepBorrowerRules(accounts: seq<Account>, others: seq<Account>)
    requires |accounts| == |others|
    requires forall i :: 0 <= i < |accounts| ==> accounts[i].issuedBooks == others[i].issuedBooks
    requires BorrowersWithinQuota(accounts) && NoDuplicateLoans(accounts)
    ensures BorrowersWithinQuota(others) && NoDuplicateLoans(others)
  {
    forall name, phone, title: Option<string>
      ensures ActiveCount(others, name, phone, title) == ActiveCount(accounts, name, phone, title)
    {
      ActiveCountSameLoans(accounts, others, name, phone, title);
    }
  }

  /** With no active loans anywhere, both borrower rules hold. */
  lemma NoLoansSatisfyBorrowerRules(accounts: seq<Account>)
    requires forall i :: 0 <= i < |accounts| ==> accounts[i].issuedBooks == []
    ensures BorrowersWithinQuota(accounts) && NoDuplicateLoans(accounts)
  {
    forall name, phone, title: Option<string>
      ensures ActiveCount(accounts, name, phone, title) == 0
    {
      ActiveCountNoLoans(accounts, name, phone, title);
    }
  }

  /** An Assistant below both of its limits for a title stays within them
      after one more loan of that title. */
  lemma AddLoanKeepsStaffQuota(a: Account, loan: Loan)
    requires WithinStaffQuota(a)
    requires a.role == AssistantRole ==>
               |a.issuedBooks| < MaxAssistantLoans && TitleCount(a.issuedBooks, loan.bookName) < MaxAssistantCopies
    ensures WithinStaffQuota(a.(issuedBooks := a.issuedBooks + [loan]))
  {
    if a.role == AssistantRole {
      forall t ensures TitleCount(a.issuedBooks + [loan], t) <= MaxAssistantCopies {
        TitleCountConcat(a.issuedBooks, [loan], t);
        assert [loan][..0] == [];
      }
    }
  }

  /** Taking one loan out of an account keeps it within its staff quota. */
  lemma RemoveLoanKeepsStaffQuota(a: Account, i: nat)
    requires i < |a.issuedBooks|
    requires WithinStaffQuota(a)
    ensures WithinStaffQuota(a.(issuedBooks := RemoveAt(a.issuedBooks, i)))
  {
    forall t ensures TitleCount(RemoveAt(a.issuedBooks, i), t) <= TitleCount(a.issuedBooks, t) {
      TitleCountRemoveAt(a.issuedBooks, i, t);
    }
  }
}
