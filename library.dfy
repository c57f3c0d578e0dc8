/** The library's shared state and the handlers that change it: issue,
    return, return-all, login, staff registration and the maintenance switch.
    Each handler is one atomic step; the clock and the password comparison
    are inputs. */
module Circulation {
  import opened Fines
  import opened Records
  import opened Quotas
  import opened Lockout
  import opened StaffNames
  import opened Invariants
  import opened Settlement

  /** Why an issue or a return is refused. */
  datatype Rejection =
    | AccountNotFound               // no such account (issue: or it is deleted)
    | StaffQuotaExceeded            // an Assistant already holds 20 loans
    | DuplicateTitleQuotaExceeded   // an Assistant already holds 5 loans of the title
    | BorrowerQuotaExceeded         // the borrower already holds 5 loans
    | DuplicateBorrowerLoan         // the borrower already holds the title
    | BookUnavailable               // no such book, or every copy is out
    | LoanNotFound                  // the account holds no loan of the triple
    | BookStateInconsistent         // no such book, or no copy of it is out

  datatype Outcome<T> = Done(value: T) | Rejected(reason: Rejection)

  datatype StaffOutcome =
    | StaffCreated
    | UsernameTaken           // a non-deleted account has the username
    | StorageError            // the unique index refused the rename of the deleted holder
    | LibrarianNameInvalid    // a Librarian not named lib0.0
    | LibrarianExists         // a non-deleted Librarian exists
    | AssistantNameInvalid    // an Assistant not named as1 .. as10
    | AssistantLimitReached   // ten non-deleted Assistants exist
    | InvalidRole             // neither Librarian nor Assistant

  /** The account with the username exists and is not deleted. */
  predicate ActiveAccount(accounts: seq<Account>, username: string)
  {
    var k := FindAccount(accounts, username);
    k.Some? && !accounts[k.value].isDeleted
  }

  /** The account a handler acts on: the first one with the username. */
  function AccountOf(accounts: seq<Account>, username: string): Account
    requires FindAccount(accounts, username).Some?
  {
    accounts[FindAccount(accounts, username).value]
  }

  /** The Assistant limit on active loans is reached. */
  predicate StaffQuotaHit(a: Account)
  {
    a.role == AssistantRole && |a.issuedBooks| >= MaxAssistantLoans
  }

  /** The Assistant limit on copies of one title is reached. */
  predicate TitleQuotaHit(a: Account, title: string)
  {
    a.role == AssistantRole && TitleCount(a.issuedBooks, title) >= MaxAssistantCopies
  }

  /** The account's role lets it issue one more copy of the title. Librarians
      and every role other than Assistant have no limit. */
  predicate StaffMayIssue(a: Account, title: string)
  {
    !StaffQuotaHit(a) && !TitleQuotaHit(a, title)
  }

  /** The borrower holds fewer than 5 loans in all and none of the title. */
  predicate BorrowerMayBorrow(accounts: seq<Account>, title: string, name: string, phone: string)
  {
    ActiveCount(accounts, name, phone, None) < MaxBorrowerLoans
    && ActiveCount(accounts, name, phone, Some(title)) == 0
  }

  /** The first book with the title has a copy left. */
  predicate InStock(books: seq<Book>, title: string)
  {
    var b := FindBook(books, title);
    b.Some? && books[b.value].issued < books[b.value].quantity
  }

  /** The first book with the title has a copy out. */
  predicate CopyOut(books: seq<Book>, title: string)
  {
    var b := FindBook(books, title);
    b.Some? && books[b.value].issued > 0
  }

  /** The book after one more copy goes out: the state turns Issued when
      the last copy leaves and stays as it was otherwise. */
  function Lent(book: Book): Book
  {
    book.(issued := book.issued + 1,
          bookState := if book.issued + 1 == book.quantity then Issued else book.bookState)
  }

  /** The account holding one more loan, appended at the end. */
  function WithLoan(a: Account, loan: Loan): Account
  {
    a.(issuedBooks := a.issuedBooks + [loan])
  }

  /** The book after one copy comes back: the state is set to Available
      whatever it was. */
  function Restocked(book: Book): Book
    requires book.issued > 0
  {
    book.(issued := book.issued - 1, bookState := Available)
  }

  /** The book after the bulk return: no copy out. */
  function Reset(book: Book): Book
  {
    book.(issued := 0, bookState := Available)
  }

  /** The rename of the deleted account holding the username would collide
      with another account under the unique index on username. */
  predicate RenameCollides(accounts: seq<Account>, username: string, now: nat)
  {
    var k := FindAccount(accounts, username);
    k.Some? && accounts[k.value].isDeleted && FindAccount(accounts, RetiredName(username, now)).Some?
  }

  /** The accounts once staff registration has freed the username: the
      account holding it, if any, is renamed and keeps the old name as
      originalUsername. */
  function FreeName(accounts: seq<Account>, username: string, now: nat): seq<Account>
  {
    var k := FindAccount(accounts, username);
    if k.Some? then
      accounts[k.value := accounts[k.value].(username := RetiredName(username, now), originalUsername := Some(username))]
    else accounts
  }

  /** A handler's answer from the first failed check, if any. */
  function Verdict<T>(check: Option<Rejection>, value: T): Outcome<T>
  {
    if check.Some? then Rejected(check.value) else Done(value)
  }

  /** The checks of an issue, in the order the handler makes them; the first
      that fails is the rejection. */
  function IssueCheck(books: seq<Book>, accounts: seq<Account>, title: string, username: string,
                      name: string, phone: string): Option<Rejection>
  {
    if !ActiveAccount(accounts, username) then Some(AccountNotFound)
    else if StaffQuotaHit(AccountOf(accounts, username)) then Some(StaffQuotaExceeded)
    else if TitleQuotaHit(AccountOf(accounts, username), title) then Some(DuplicateTitleQuotaExceeded)
    else if ActiveCount(accounts, name, phone, None) >= MaxBorrowerLoans then Some(BorrowerQuotaExceeded)
    else if ActiveCount(accounts, name, phone, Some(title)) > 0 then Some(DuplicateBorrowerLoan)
    else if !InStock(books, title) then Some(BookUnavailable)
    else None
  }

  /** The checks of a return, in the handler's order. */
  function ReturnCheck(books: seq<Book>, accounts: seq<Account>, title: string, username: string,
                       name: string, phone: string): Option<Rejection>
  {
    if FindAccount(accounts, username).None? then Some(AccountNotFound)
    else if FindLoan(AccountOf(accounts, username).issuedBooks, title, name, phone).None? then Some(LoanNotFound)
    else if !CopyOut(books, title) then Some(BookStateInconsistent)
    else None
  }

  /** The outcome of staff registration, in the handler's order: the
      username check (with the rename of a deleted holder), then the role's
      own name and cap checks. Role counts are over the accounts before the
      rename, which keeps every role and deletion flag. */
  function StaffCheck(accounts: seq<Account>, username: string, role: string, now: nat): StaffOutcome
  {
    if ActiveAccount(accounts, username) then UsernameTaken
    else if RenameCollides(accounts, username, now) then StorageError
    else if role == LibrarianRole then
      if username != LibrarianName then LibrarianNameInvalid
      else if ActiveRoleCount(accounts, LibrarianRole) > 0 then LibrarianExists
      else StaffCreated
    else if role == AssistantRole then
      if !IsAssistantName(username) then AssistantNameInvalid
      else if ActiveRoleCount(accounts, AssistantRole) >= MaxAssistants then AssistantLimitReached
      else StaffCreated
    else InvalidRole
  }

  /** An issue is refused for a duplicate loan exactly when some account,
      deleted or not, already holds a loan of that title to that borrower. */
  lemma DuplicateMeansHeld(books: seq<Book>, accounts: seq<Account>, title: string, username: string,
                           name: string, phone: string)
    requires ActiveAccount(accounts, username) && StaffMayIssue(AccountOf(accounts, username), title)
    requires ActiveCount(accounts, name, phone, None) < MaxBorrowerLoans
    ensures IssueCheck(books, accounts, title, username, name, phone) == Some(DuplicateBorrowerLoan) <==>
            exists i, j :: 0 <= i < |accounts| && 0 <= j < |accounts[i].issuedBooks|
                           && SameLoan(accounts[i].issuedBooks[j], title, name, phone)
  {
    ActiveCountPositive(accounts, title, name, phone);
  }

  /** Only the names lib0.0 and as1 .. as10 are ever registered, each with
      its own role. */
  lemma CreatedStaffNames(accounts: seq<Account>, username: string, role: string, now: nat)
    requires StaffCheck(accounts, username, role, now) == StaffCreated
    ensures (role == LibrarianRole && username == LibrarianName) ||
            (role == AssistantRole && exists k :: 1 <= k <= MaxAssistants && username == "as" + Decimal(k))
  {
    AssistantNamesAreNumbered(username);
  }

  /** An issue that passed every check keeps every rule of the library. */
  lemma IssueKeepsInvariant(books: seq<Book>, accounts: seq<Account>, b: nat, k: nat, loan: Loan)
    requires LibraryInvariant(books, accounts)
    requires b < |books| && books[b].issued < books[b].quantity
    requires k < |accounts| && StaffMayIssue(accounts[k], loan.bookName)
    requires BorrowerMayBorrow(accounts, loan.bookName, loan.borrowerName, loan.borrowerPhone)
    ensures LibraryInvariant(books[b := Lent(books[b])], accounts[k := WithLoan(accounts[k], loan)])
  {
    var updated := accounts[k := WithLoan(accounts[k], loan)];
    IssueKeepsBookConsistent(books[b]);
    AddLoanKeepsBorrowerRules(accounts, k, loan);
    AddLoanKeepsStaffQuota(accounts[k], loan);
    ActiveRoleCountSameRoles(accounts, updated, LibrarianRole);
    ActiveRoleCountSameRoles(accounts, updated, AssistantRole);
    assert AccountConsistent(accounts[k]);
  }

  /** A return that passed every check keeps every rule. */
  lemma ReturnKeepsInvariant(books: seq<Book>, accounts: seq<Account>, b: nat, k: nat, i: nat, returnDate: int)
    requires LibraryInvariant(books, accounts)
    requires b < |books| && books[b].issued > 0
    requires k < |accounts| && i < |accounts[k].issuedBooks|
    ensures LibraryInvariant(books[b := Restocked(books[b])], accounts[k := Discharged(accounts[k], i, returnDate)])
  {
    var na := Discharged(accounts[k], i, returnDate);
    var updated := accounts[k := na];
    ReturnKeepsBookConsistent(books[b]);
    RemoveLoanKeepsBorrowerRules(accounts, k, i, na);
    RemoveLoanKeepsStaffQuota(accounts[k], i);
    ActiveRoleCountSameRoles(accounts, updated, LibrarianRole);
    ActiveRoleCountSameRoles(accounts, updated, AssistantRole);
    assert AccountConsistent(accounts[k]);
  }

  /** Returning, at any later time, the loan an issue has just made takes it
      off the same account and puts the copy back: the catalogue is as
      before, and the account is as before except for the new history
      record and its fine. */
  lemma ReturnUndoesIssue(books: seq<Book>, accounts: seq<Account>, title: string, username: string,
                          name: string, phone: string, issueDate: int, returnDate: int)
    requires BooksConsistent(books)
    requires IssueCheck(books, accounts, title, username, name, phone) == None
    ensures var k := FindAccount(accounts, username).value;
            var b := FindBook(books, title).value;
            var loan := Loan(title, name, phone, issueDate);
            var books1 := books[b := Lent(books[b])];
            var accounts1 := accounts[k := WithLoan(accounts[k], loan)];
            && ReturnCheck(books1, accounts1, title, username, name, phone) == None
            && FindLoan(accounts1[k].issuedBooks, title, name, phone) == Some(|accounts[k].issuedBooks|)
            && books1[b := Restocked(books1[b])] == books
            && accounts1[k := Discharged(accounts1[k], |accounts[k].issuedBooks|, returnDate)]
               == accounts[k := accounts[k].(returnHistory := accounts[k].returnHistory + [Close(loan, returnDate)],
                                             fines := accounts[k].fines + Fine(issueDate, returnDate))]
  {
    var k := FindAccount(accounts, username).value;
    var b := FindBook(books, title).value;
    var loan := Loan(title, name, phone, issueDate);
    IssuePassed(books, accounts, title, username, name, phone);
    IssuedLoanIsReturnable(books, accounts, b, k, loan, username);
    ReturnRestores(books, accounts, b, k, loan, returnDate);
  }

  /** An issue that passed its checks found an account and a book with a
      copy in stock, and the account held no loan of the triple, so the
      new loan will be the first of its triple. */
  lemma IssuePassed(books: seq<Book>, accounts: seq<Account>, title: string, username: string,
                    name: string, phone: string)
    requires BooksConsistent(books)
    requires IssueCheck(books, accounts, title, username, name, phone) == None
    ensures FindAccount(accounts, username).Some? && FindBook(books, title).Some?
    ensures var b := FindBook(books, title).value;
            BookConsistent(books[b]) && books[b].issued < books[b].quantity
    ensures var k := FindAccount(accounts, username).value;
            LoanCount(accounts[k].issuedBooks, name, phone, Some(title)) == 0
  {
    LoanCountWithinActive(accounts, FindAccount(accounts, username).value, name, phone, Some(title));
  }

  /** After the issue, the return's checks all pass and it finds the new loan. */
  lemma IssuedLoanIsReturnable(books: seq<Book>, accounts: seq<Account>, b: nat, k: nat, loan: Loan,
                               username: string)
    requires FindAccount(accounts, username) == Some(k)
    requires FindBook(books, loan.bookName) == Some(b) && books[b].issued < books[b].quantity
    requires LoanCount(accounts[k].issuedBooks, loan.borrowerName, loan.borrowerPhone, Some(loan.bookName)) == 0
    ensures var books1 := books[b := Lent(books[b])];
            var accounts1 := accounts[k := WithLoan(accounts[k], loan)];
            && ReturnCheck(books1, accounts1, loan.bookName, username, loan.borrowerName, loan.borrowerPhone) == None
            && FindLoan(accounts1[k].issuedBooks, loan.bookName, loan.borrowerName, loan.borrowerPhone)
               == Some(|accounts[k].issuedBooks|)
  {
    FindAccountAfterUpdate(accounts, username, WithLoan(accounts[k], loan));
    FindBookAfterUpdate(books, loan.bookName, Lent(books[b]));
    NewLoanIsFirst(accounts[k], loan);
  }

  /** Restocking the lent copy and discharging the new loan give back the
      catalogue, and the account with one more history record and its fine. */
  lemma ReturnRestores(books: seq<Book>, accounts: seq<Account>, b: nat, k: nat, loan: Loan, returnDate: int)
    requires b < |books| && BookConsistent(books[b]) && books[b].issued < books[b].quantity
    requires k < |accounts|
    requires LoanCount(accounts[k].issuedBooks, loan.borrowerName, loan.borrowerPhone, Some(loan.bookName)) == 0
    ensures var books1 := books[b := Lent(books[b])];
            books1[b := Restocked(books1[b])] == books
    ensures var a := accounts[k];
            var accounts1 := accounts[k := WithLoan(a, loan)];
            accounts1[k := Discharged(accounts1[k], |a.issuedBooks|, returnDate)]
            == accounts[k := a.(returnHistory := a.returnHistory + [Close(loan, returnDate)],
                                fines := a.fines + Fine(loan.issueDate, returnDate))]
  {
    NewLoanIsFirst(accounts[k], loan);
  }

  /** A loan appended to an account holding none of its triple is the one a
      return finds, and taking it out gives back the old loans. */
  lemma NewLoanIsFirst(a: Account, loan: Loan)
    requires LoanCount(a.issuedBooks, loan.borrowerName, loan.borrowerPhone, Some(loan.bookName)) == 0
    ensures FindLoan(WithLoan(a, loan).issuedBooks, loan.bookName, loan.borrowerName, loan.borrowerPhone)
            == Some(|a.issuedBooks|)
    ensures RemoveAt(WithLoan(a, loan).issuedBooks, |a.issuedBooks|) == a.issuedBooks
  {
    var loans := WithLoan(a, loan).issuedBooks;
    LoanCountPositive(a.issuedBooks, loan.bookName, loan.borrowerName, loan.borrowerPhone);
    forall j | 0 <= j < |a.issuedBooks|
      ensures !SameLoan(loans[j], loan.bookName, loan.borrowerName, loan.borrowerPhone)
    {
      assert loans[j] == a.issuedBooks[j];
    }
    assert SameLoan(loans[|a.issuedBooks|], loan.bookName, loan.borrowerName, loan.borrowerPhone);
    assert RemoveAt(loans, |a.issuedBooks|) == a.issuedBooks;
  }

  /** The bulk return keeps every rule: no loan is left open anywhere. */
  lemma ReturnAllKeepsInvariant(books: seq<Book>, accounts: seq<Account>, books1: seq<Book>,
                                accounts1: seq<Account>, returnDate: int)
    requires LibraryInvariant(books, accounts)
    requires |books1| == |books| && forall j :: 0 <= j < |books| ==> books1[j] == Reset(books[j])
    requires |accounts1| == |accounts|
    requires forall j :: 0 <= j < |accounts| ==> accounts1[j] == Settled(accounts[j], returnDate)
    ensures LibraryInvariant(books1, accounts1)
  {
    forall j | 0 <= j < |accounts1|
      ensures accounts1[j].issuedBooks == [] && AccountConsistent(accounts1[j])
      ensures accounts1[j].username == accounts[j].username && accounts1[j].role == accounts[j].role
      ensures accounts1[j].isDeleted == accounts[j].isDeleted
    {
      SettledCloses(accounts[j], returnDate);
      assert AccountConsistent(accounts[j]);
    }
    NoLoansSatisfyBorrowerRules(accounts1);
    ActiveRoleCountSameRoles(accounts, accounts1, LibrarianRole);
    ActiveRoleCountSameRoles(accounts, accounts1, AssistantRole);
  }

  /** A login attempt keeps every rule: only the login counters change, and
      they stay valid. */
  lemma AttemptKeepsInvariant(books: seq<Book>, accounts: seq<Account>, k: nat, isMatch: bool, now: int)
    requires LibraryInvariant(books, accounts)
    requires k < |accounts|
    ensures LibraryInvariant(books, accounts[k := Attempt(accounts[k], isMatch, now).account])
  {
    var updated := accounts[k := Attempt(accounts[k], isMatch, now).account];
    SameLoansKeepBorrowerRules(accounts, updated);
    ActiveRoleCountSameRoles(accounts, updated, LibrarianRole);
    ActiveRoleCountSameRoles(accounts, updated, AssistantRole);
    assert AccountConsistent(accounts[k]);
  }

  /** Freeing a name held by a deleted account, without a collision, keeps
      every rule, leaves no account with the username and keeps every role
      count. */
  lemma FreeNameKeepsInvariant(books: seq<Book>, accounts: seq<Account>, username: string, now: nat)
    requires LibraryInvariant(books, accounts)
    requires !ActiveAccount(accounts, username) && !RenameCollides(accounts, username, now)
    ensures LibraryInvariant(books, FreeName(accounts, username, now))
    ensures FindAccount(FreeName(accounts, username, now), username).None?
    ensures forall role :: ActiveRoleCount(FreeName(accounts, username, now), role) == ActiveRoleCount(accounts, role)
  {
    var k := FindAccount(accounts, username);
    if k.Some? {
      var i := k.value;
      var retired := RetiredName(username, now);
      var r := FreeName(accounts, username, now);
      SameLoansKeepBorrowerRules(accounts, r);
      forall role ensures ActiveRoleCount(r, role) == ActiveRoleCount(accounts, role) {
        ActiveRoleCountSameRoles(accounts, r, role);
      }
      assert AccountConsistent(accounts[i]);
      RenameKeepsUnique(accounts, i, retired);
    }
  }

  /** Renaming account i to a name no account has keeps usernames unique,
      and the old name is then held by no account. */
  lemma RenameKeepsUnique(accounts: seq<Account>, i: nat, newName: string)
    requires UniqueUsernames(accounts) && i < |accounts|
    requires FindAccount(accounts, newName).None?
    ensures var r := accounts[i := accounts[i].(username := newName, originalUsername := Some(accounts[i].username))];
            UniqueUsernames(r) && FindAccount(r, accounts[i].username).None?
  {
    var oldName := accounts[i].username;
    var r := accounts[i := accounts[i].(username := newName, originalUsername := Some(oldName))];
    forall j | 0 <= j < |r| && j != i ensures r[j].username != oldName && r[j].username != newName {
      assert accounts[j].username != accounts[i].username;
    }
  }

  /** A new staff account under a free username, within the role caps,
      keeps every rule. */
  lemma AddStaffKeepsInvariant(books: seq<Book>, accounts: seq<Account>, username: string, role: string)
    requires LibraryInvariant(books, accounts)
    requires FindAccount(accounts, username).None?
    requires role == LibrarianRole ==> ActiveRoleCount(accounts, LibrarianRole) == 0
    requires role == AssistantRole ==> ActiveRoleCount(accounts, AssistantRole) < MaxAssistants
    ensures LibraryInvariant(books, accounts + [NewAccount(username, role)])
  {
    var r := accounts + [NewAccount(username, role)];
    assert r[..|accounts|] == accounts;
    forall name, phone, title: Option<string>
      ensures ActiveCount(r, name, phone, title) == ActiveCount(accounts, name, phone, title)
    {
    }
  }

  class Library {
    var books: seq<Book>
    var accounts: seq<Account>
    /** The process-wide maintenance switch read by login. */
    var maintenanceMode: bool

    ghost predicate Valid()
      reads this
    {
      LibraryInvariant(books, accounts)
    }

    /** The library over an existing catalogue and account store, with
        maintenance off, as at process start. */
    constructor (books0: seq<Book>, accounts0: seq<Account>)
      requires LibraryInvariant(books0, accounts0)
      ensures Valid()
      ensures books == books0 && accounts == accounts0 && !maintenanceMode
    {
      books, accounts, maintenanceMode := books0, accounts0, false;
    }

    /** The administrator's toggle of the maintenance switch. */
    method ToggleMaintenance()
      requires Valid()
      modifies this
      ensures Valid()
      ensures maintenanceMode == !old(maintenanceMode)
      ensures books == old(books) && accounts == old(accounts)
    {
      maintenanceMode := !maintenanceMode;
    }

    /** The saves of a successful issue: one more copy of book b out, and
        the loan appended to account k. */
    method Lend(b: nat, k: nat, loan: Loan)
      requires Valid()
      requires b < |books| && books[b].issued < books[b].quantity
      requires k < |accounts| && StaffMayIssue(accounts[k], loan.bookName)
      requires BorrowerMayBorrow(accounts, loan.bookName, loan.borrowerName, loan.borrowerPhone)
      modifies this
      ensures Valid()
      ensures maintenanceMode == old(maintenanceMode)
      ensures books == old(books)[b := Lent(old(books)[b])]
      ensures accounts == old(accounts)[k := WithLoan(old(accounts)[k], loan)]
    {
      IssueKeepsInvariant(books, accounts, b, k, loan);
      var book := books[b];
      book := book.(issued := book.issued + 1);
      if book.issued == book.quantity {
        book := book.(bookState := Issued);
      }
      books := books[b := book];
      var user := accounts[k];
      accounts := accounts[k := user.(issuedBooks := user.issuedBooks + [loan])];
    }

    /** Issue one copy of title to borrower (name, phone) on the account
        username, at time now. The checks run in order and the first that
        fails decides the rejection; a rejection changes nothing. */
    method Issue(title: string, username: string, name: string, phone: string, now: int)
      returns (r: Outcome<()>)
      requires Valid()
      modifies this
      ensures Valid()
      ensures maintenanceMode == old(maintenanceMode)
      ensures r == Verdict(IssueCheck(old(books), old(accounts), title, username, name, phone), ())
      ensures r.Rejected? ==> books == old(books) && accounts == old(accounts)
      ensures r.Done? ==>
                var k := FindAccount(old(accounts), username).value;
                var b := FindBook(old(books), title).value;
                && books == old(books)[b := Lent(old(books)[b])]
                && accounts == old(accounts)[k := WithLoan(old(accounts)[k], Loan(title, name, phone, now))]
    {
      var found := FindAccount(accounts, username);
      if found.None? || accounts[found.value].isDeleted {
        return Rejected(AccountNotFound);
      }
      var k := found.value;
      var user := accounts[k];

      // Role-based limits: none for a Librarian, none for other roles.
      if user.role == LibrarianRole {
      } else if user.role == AssistantRole {
        if |user.issuedBooks| >= MaxAssistantLoans {
          return Rejected(StaffQuotaExceeded);
        }
        var sameBookCount := TitleCount(user.issuedBooks, title);
        if sameBookCount >= MaxAssistantCopies {
          return Rejected(DuplicateTitleQuotaExceeded);
        }
      }

      // Borrower limits, over every account's active loans.
      var borrowerBookCount, borrowerHasThisBook := CountBorrowerLoans(accounts, title, name, phone);
      if borrowerBookCount >= MaxBorrowerLoans {
        return Rejected(BorrowerQuotaExceeded);
      }
      if borrowerHasThisBook {
        return Rejected(DuplicateBorrowerLoan);
      }

      var bookIndex := FindBook(books, title);
      if bookIndex.Some? && books[bookIndex.value].issued < books[bookIndex.value].quantity {
        Lend(bookIndex.value, k, Loan(title, name, phone, now));
        return Done(());
      }
      return Rejected(BookUnavailable);
    }

    /** The saves of a successful return at time now: one copy of book b
        back, and loan i of account k closed into its history with its fine,
        which is the result. */
    method TakeBack(b: nat, k: nat, i: nat, now: int) returns (fine: nat)
      requires Valid()
      requires b < |books| && books[b].issued > 0
      requires k < |accounts| && i < |accounts[k].issuedBooks|
      modifies this
      ensures Valid()
      ensures maintenanceMode == old(maintenanceMode)
      ensures fine == Fine(old(accounts)[k].issuedBooks[i].issueDate, now)
      ensures books == old(books)[b := Restocked(old(books)[b])]
      ensures accounts == old(accounts)[k := Discharged(old(accounts)[k], i, now)]
    {
      ReturnKeepsInvariant(books, accounts, b, k, i, now);
      var book := books[b];
      book := book.(issued := book.issued - 1, bookState := Available);
      books := books[b := book];

      var user := accounts[k];
      var bookRecord := user.issuedBooks[i];
      fine := Fine(bookRecord.issueDate, now);
      user := user.(fines := user.fines + fine);
      user := user.(returnHistory := user.returnHistory + [Close(bookRecord, now)]);
      user := user.(issuedBooks := user.issuedBooks[..i] + user.issuedBooks[i + 1..]);
      accounts := accounts[k := user];
    }

    /** Return the first loan of (title, name, phone) on the account username
        at time now; the result is the fine charged. A deleted account may
        return. A rejection changes nothing. */
    method Return(title: string, username: string, name: string, phone: string, now: int)
      returns (r: Outcome<nat>)
      requires Valid()
      modifies this
      ensures Valid()
      ensures maintenanceMode == old(maintenanceMode)
      ensures r.Rejected? <==> ReturnCheck(old(books), old(accounts), title, username, name, phone).Some?
      ensures r.Rejected? ==> Some(r.reason) == ReturnCheck(old(books), old(accounts), title, username, name, phone)
      ensures r.Rejected? ==> books == old(books) && accounts == old(accounts)
      ensures r.Done? ==>
                var k := FindAccount(old(accounts), username).value;
                var i := FindLoan(old(accounts)[k].issuedBooks, title, name, phone).value;
                var b := FindBook(old(books), title).value;
                && r.value == Fine(old(accounts)[k].issuedBooks[i].issueDate, now)
                && books == old(books)[b := Restocked(old(books)[b])]
                && accounts == old(accounts)[k := Discharged(old(accounts)[k], i, now)]
    {
      var found := FindAccount(accounts, username);
      if found.None? {
        return Rejected(AccountNotFound);
      }
      var k := found.value;
      var index := FindLoan(accounts[k].issuedBooks, title, name, phone);
      if index.None? {
        return Rejected(LoanNotFound);
      }
      var bookIndex := FindBook(books, title);
      if bookIndex.Some? && books[bookIndex.value].issued > 0 {
        var fine := TakeBack(bookIndex.value, k, index.value, now);
        return Done(fine);
      }
      return Rejected(BookStateInconsistent);
    }

    /** The bulk return at time now: every open loan of every account is
        closed into that account's history with its fine, and every book is
        reset to no copies out. */
    method ReturnAll(now: int)
      requires Valid()
      modifies this
      ensures Valid()
      ensures maintenanceMode == old(maintenanceMode)
      ensures |accounts| == |old(accounts)|
      ensures forall j :: 0 <= j < |accounts| ==> accounts[j] == Settled(old(accounts)[j], now)
      ensures |books| == |old(books)|
      ensures forall j :: 0 <= j < |books| ==> books[j] == Reset(old(books)[j])
    {
      var users := accounts;
      var u := 0;
      while u < |users|
        invariant books == old(books) && accounts == old(accounts) && maintenanceMode == old(maintenanceMode)
        invariant 0 <= u <= |users| && |users| == |accounts|
        invariant forall j :: 0 <= j < u ==> users[j] == Settled(accounts[j], now)
        invariant forall j :: u <= j < |users| ==> users[j] == accounts[j]
      {
        if |users[u].issuedBooks| > 0 {
          var settled := SettleAccount(users[u], now);
          users := users[u := settled];
        } else {
          SettledWithoutLoans(users[u], now);
        }
        u := u + 1;
      }
      var catalogue := books;
      var reset := seq(|catalogue|, j requires 0 <= j < |catalogue| => Reset(catalogue[j]));
      ReturnAllKeepsInvariant(books, accounts, reset, users, now);
      accounts := users;
      books := reset;
    }

    /** One login attempt on username at time now, where isMatch is the
        outcome of comparing the submitted password with the stored hash.
        During maintenance only the Librarian name may try. */
    method Login(username: string, isMatch: bool, now: int) returns (r: LoginOutcome)
      requires Valid()
      modifies this
      ensures Valid()
      ensures maintenanceMode == old(maintenanceMode) && books == old(books)
      ensures r == MaintenanceRefused <==> old(maintenanceMode) && username != LibrarianName
      ensures r == UnknownAccount <==>
                !(old(maintenanceMode) && username != LibrarianName) && !ActiveAccount(old(accounts), username)
      ensures r == MaintenanceRefused || r == UnknownAccount ==> accounts == old(accounts)
      ensures r != MaintenanceRefused && r != UnknownAccount ==>
                var k := FindAccount(old(accounts), username).value;
                var step := Attempt(old(accounts)[k], isMatch, now);
                r == step.outcome && accounts == old(accounts)[k := step.account]
    {
      if maintenanceMode && username != LibrarianName {
        return MaintenanceRefused;
      }
      var found := FindAccount(accounts, username);
      if found.None? || accounts[found.value].isDeleted {
        return UnknownAccount;
      }
      var k := found.value;
      var user := accounts[k];
      AttemptKeepsInvariant(books, accounts, k, isMatch, now);

      if Locked(user, now) {
        return Blocked;
      }
      // An expired lock gives fresh tries. The handler saves this reset at
      // once; the save at the end writes the same account again, so only
      // that one is made here.
      if LockExpired(user, now) {
        user := user.(lockUntil := None, failedLoginAttempts := 0);
      }
      if isMatch {
        user := user.(lockUntil := None, failedLoginAttempts := 0);
        r := LoggedIn;
      } else {
        user := user.(failedLoginAttempts := user.failedLoginAttempts + 1,
                      totalFailedAttempts := user.totalFailedAttempts + 1);
        if user.failedLoginAttempts >= LockThreshold {
          user := user.(lockUntil := Some(now + LockMillis), failedLoginAttempts := 0);
          r := LockedOut;
        } else {
          r := WrongPassword;
        }
      }
      assert user == Attempt(old(accounts)[k], isMatch, now).account;
      accounts := accounts[k := user];
    }

    /** The save of a new staff account under a free username. */
    method SaveStaff(username: string, role: string)
      requires Valid()
      requires FindAccount(accounts, username).None?
      requires role == LibrarianRole ==> ActiveRoleCount(accounts, LibrarianRole) == 0
      requires role == AssistantRole ==> ActiveRoleCount(accounts, AssistantRole) < MaxAssistants
      modifies this
      ensures Valid()
      ensures maintenanceMode == old(maintenanceMode) && books == old(books)
      ensures accounts == old(accounts) + [NewAccount(username, role)]
    {
      AddStaffKeepsInvariant(books, accounts, username, role);
      accounts := accounts + [NewAccount(username, role)];
    }

    /** Register a staff account username with the given role at time now.
        A deleted account holding the username is renamed first, and the
        rename stays even when the role checks that follow refuse. */
    method CreateStaff(username: string, role: string, now: nat) returns (r: StaffOutcome)
      requires Valid()
      modifies this
      ensures Valid()
      ensures maintenanceMode == old(maintenanceMode) && books == old(books)
      ensures r == StaffCheck(old(accounts), username, role, now)
      ensures r == UsernameTaken || r == StorageError ==> accounts == old(accounts)
      ensures r != UsernameTaken && r != StorageError && r != StaffCreated ==>
                accounts == FreeName(old(accounts), username, now)
      ensures r == StaffCreated ==>
                accounts == FreeName(old(accounts), username, now) + [NewAccount(username, role)]
    {
      var nameCheck := FindAccount(accounts, username);
      if nameCheck.Some? {
        var k := nameCheck.value;
        if !accounts[k].isDeleted {
          return UsernameTaken;
        }
        var retired := RetiredName(username, now);
        if FindAccount(accounts, retired).Some? {
          return StorageError;
        }
      }
      ghost var accounts0 := accounts;
      FreeNameKeepsInvariant(books, accounts, username, now);
      if nameCheck.Some? {
        var k := nameCheck.value;
        accounts := accounts[k := accounts[k].(username := RetiredName(username, now),
                                               originalUsername := Some(accounts[k].username))];
      }
      assert accounts == FreeName(accounts0, username, now);

      if role == LibrarianRole {
        if username != LibrarianName {
          return LibrarianNameInvalid;
        }
        var existingLib := FirstIndex(accounts, (a: Account) => a.role == LibrarianRole && !a.isDeleted);
        ActiveRoleCountPositive(accounts, LibrarianRole);
        if existingLib.Some? {
          return LibrarianExists;
        }
      } else if role == AssistantRole {
        if !IsAssistantName(username) {
          return AssistantNameInvalid;
        }
        var count := ActiveRoleCount(accounts, AssistantRole);
        if count >= MaxAssistants {
          return AssistantLimitReached;
        }
      } else {
        return InvalidRole;
      }
      SaveStaff(username, role);
      return StaffCreated;
    }
  }
}
