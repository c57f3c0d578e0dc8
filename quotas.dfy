/** The counts the issue and registration rules compare with their limits:
    loans of one title on one account, active loans of one borrower across
    every account, and non-deleted accounts of one role. */
module Quotas {
  import opened Records

  /** An Assistant may hold at most 20 active loans ... */
  const MaxAssistantLoans: nat := 20
  /** ... and at most 5 of them for the same title. */
  const MaxAssistantCopies: nat := 5
  /** A borrower (name, phone) may hold at most 5 active loans in all. */
  const MaxBorrowerLoans: nat := 5

  /** The loan is on borrower (name, phone) and, when a title is given, for
      that title. Both the issue and return rules compare these strings
      exactly (case-sensitively). */
  predicate BorrowerLoan(l: Loan, name: string, phone: string, title: Option<string>)
  {
    l.borrowerName == name && l.borrowerPhone == phone && (title.None? || l.bookName == title.value)
  }

  /** Loans in the list matching BorrowerLoan. */
  function LoanCount(loans: seq<Loan>, name: string, phone: string, title: Option<string>): nat
  {
    if loans == [] then 0
    else LoanCount(loans[..|loans| - 1], name, phone, title)
         + (if BorrowerLoan(loans[|loans| - 1], name, phone, title) then 1 else 0)
  }

  /** Active loans matching BorrowerLoan over every account, deleted or not. */
  function ActiveCount(accounts: seq<Account>, name: string, phone: string, title: Option<string>): nat
  {
    if accounts == [] then 0
    else ActiveCount(accounts[..|accounts| - 1], name, phone, title)
         + LoanCount(accounts[|accounts| - 1].issuedBooks, name, phone, title)
  }

  /** issuedBooks.filter(b => b.bookName === title).length */
  function TitleCount(loans: seq<Loan>, title: string): nat
  {
    if loans == [] then 0
    else TitleCount(loans[..|loans| - 1], title) + (if loans[|loans| - 1].bookName == title then 1 else 0)
  }

  /** User.countDocuments({ role, isDeleted: { $ne: true } }) */
  function ActiveRoleCount(accounts: seq<Account>, role: string): nat
  {
    if accounts == [] then 0
    else ActiveRoleCount(accounts[..|accounts| - 1], role)
         + (if accounts[|accounts| - 1].role == role && !accounts[|accounts| - 1].isDeleted then 1 else 0)
  }

  lemma {:induction false} LoanCountConcat(a: seq<Loan>, b: seq<Loan>, name: string, phone: string, title: Option<string>)
    ensures LoanCount(a + b, name, phone, title) == LoanCount(a, name, phone, title) + LoanCount(b, name, phone, title)
    decreases |b|
  {
    if b == [] {
      assert a + b == a;
    } else {
      assert (a + b)[..|a + b| - 1] == a + b[..|b| - 1];
      LoanCountConcat(a, b[..|b| - 1], name, phone, title);
    }
  }

  lemma {:induction false} TitleCountConcat(a: seq<Loan>, b: seq<Loan>, title: string)
    ensures TitleCount(a + b, title) == TitleCount(a, title) + TitleCount(b, title)
    decreases |b|
  {
    if b == [] {
      assert a + b == a;
    } else {
      assert (a + b)[..|a + b| - 1] == a + b[..|b| - 1];
      TitleCountConcat(a, b[..|b| - 1], title);
    }
  }

  /** Taking one loan out lowers a count by one exactly when that loan matched. */
  lemma LoanCountRemoveAt(loans: seq<Loan>, i: nat, name: string, phone: string, title: Option<string>)
    requires i < |loans|
    ensures LoanCount(RemoveAt(loans, i), name, phone, title) + (if BorrowerLoan(loans[i], name, phone, title) then 1 else 0)
            == LoanCount(loans, name, phone, title)
  {
    assert loans == loans[..i] + [loans[i]] + loans[i + 1..];
    LoanCountConcat(loans[..i] + [loans[i]], loans[i + 1..], name, phone, title);
    LoanCountConcat(loans[..i], [loans[i]], name, phone, title);
    LoanCountConcat(loans[..i], loans[i + 1..], name, phone, title);
    assert LoanCount([loans[i]], name, phone, title) == (if BorrowerLoan(loans[i], name, phone, title) then 1 else 0) by {
      assert [loans[i]][..0] == [];
    }
  }

  lemma TitleCountRemoveAt(loans: seq<Loan>, i: nat, title: string)
    requires i < |loans|
    ensures TitleCount(RemoveAt(loans, i), title) + (if loans[i].bookName == title then 1 else 0) == TitleCount(loans, title)
  {
    assert loans == loans[..i] + [loans[i]] + loans[i + 1..];
    TitleCountConcat(loans[..i] + [loans[i]], loans[i + 1..], title);
    TitleCountConcat(loans[..i], [loans[i]], title);
    TitleCountConcat(loans[..i], loans[i + 1..], title);
    assert TitleCount([loans[i]], title) == (if loans[i].bookName == title then 1 else 0) by {
      assert [loans[i]][..0] == [];
    }
  }

  /** A borrower holds a given title on a list exactly when the triple count is positive. */
  lemma {:induction false} LoanCountPositive(loans: seq<Loan>, title: string, name: string, phone: string)
    ensures LoanCount(loans, name, phone, Some(title)) > 0 <==>
            exists j :: 0 <= j < |loans| && SameLoan(loans[j], title, name, phone)
    decreases |loans|
  {
    if loans != [] {
      var init := loans[..|loans| - 1];
      LoanCountPositive(init, title, name, phone);
      if LoanCount(init, name, phone, Some(title)) > 0 {
        var j :| 0 <= j < |init| && SameLoan(init[j], title, name, phone);
        assert loans[j] == init[j];
      }
      forall j | 0 <= j < |loans| - 1 ensures loans[j] == init[j] { }
    }
  }

  /** A borrower holds a title somewhere exactly when the global triple count
      is positive: the duplicate-loan rejection means some account holds a
      loan of that very (title, name, phone). */
  lemma {:induction false} ActiveCountPositive(accounts: seq<Account>, title: string, name: string, phone: string)
    ensures ActiveCount(accounts, name, phone, Some(title)) > 0 <==>
            exists i, j :: 0 <= i < |accounts| && 0 <= j < |accounts[i].issuedBooks|
                           && SameLoan(accounts[i].issuedBooks[j], title, name, phone)
    decreases |accounts|
  {
    if accounts != [] {
      var n := |accounts| - 1;
      var init := accounts[..n];
      ActiveCountPositive(init, title, name, phone);
      LoanCountPositive(accounts[n].issuedBooks, title, name, phone);
      if ActiveCount(init, name, phone, Some(title)) > 0 {
        var i, j :| 0 <= i < |init| && 0 <= j < |init[i].issuedBooks| && SameLoan(init[i].issuedBooks[j], title, name, phone);
        assert accounts[i] == init[i];
      }
      forall i | 0 <= i < n ensures accounts[i] == init[i] { }
    }
  }

  /** One account's matching loans are among all accounts' matching loans. */
  lemma LoanCountWithinActive(accounts: seq<Account>, k: nat, name: string, phone: string, title: Option<string>)
    requires k < |accounts|
    ensures LoanCount(accounts[k].issuedBooks, name, phone, title) <= ActiveCount(accounts, name, phone, title)
  {
    ActiveCountUpdate(accounts, k, accounts[k].(issuedBooks := []), name, phone, title);
  }

  /** Replacing one account changes a borrower count by the difference of that
      account's own counts. */
  lemma {:induction false} ActiveCountUpdate(accounts: seq<Account>, k: nat, a: Account, name: string, phone: string, title: Option<string>)
    requires k < |accounts|
    ensures ActiveCount(accounts[k := a], name, phone, title) + LoanCount(accounts[k].issuedBooks, name, phone, title)
            == ActiveCount(accounts, name, phone, title) + LoanCount(a.issuedBooks, name, phone, title)
    decreases |accounts|
  {
    var n := |accounts| - 1;
    var updated := accounts[k := a];
    if k < n {
      assert updated[..n] == accounts[..n][k := a];
      ActiveCountUpdate(accounts[..n], k, a, name, phone, title);
    } else {
      assert updated[..n] == accounts[..n];
    }
  }

  /** Counts depend on the accounts' loan lists only. */
  lemma {:induction false} ActiveCountSameLoans(accounts: seq<Account>, others: seq<Account>, name: string, phone: string, title: Option<string>)
    requires |accounts| == |others|
    requires forall i :: 0 <= i < |accounts| ==> accounts[i].issuedBooks == others[i].issuedBooks
    ensures ActiveCount(accounts, name, phone, title) == ActiveCount(others, name, phone, title)
    decreases |accounts|
  {
    if accounts != [] {
      var n := |accounts| - 1;
      ActiveCountSameLoans(accounts[..n], others[..n], name, phone, title);
    }
  }

  /** With every loan list empty, every count is 0. */
  lemma {:induction false} ActiveCountNoLoans(accounts: seq<Account>, name: string, phone: string, title: Option<string>)
    requires forall i :: 0 <= i < |accounts| ==> accounts[i].issuedBooks == []
    ensures ActiveCount(accounts, name, phone, title) == 0
    decreases |accounts|
  {
    if accounts != [] {
      ActiveCountNoLoans(accounts[..|accounts| - 1], name, phone, title);
    }
  }

  /** Role counts depend on the accounts' roles and deletion flags only. */
  lemma {:induction false} ActiveRoleCountSameRoles(accounts: seq<Account>, others: seq<Account>, role: string)
    requires |accounts| == |others|
    requires forall i :: 0 <= i < |accounts| ==>
               accounts[i].role == others[i].role && accounts[i].isDeleted == others[i].isDeleted
    ensures ActiveRoleCount(accounts, role) == ActiveRoleCount(others, role)
    decreases |accounts|
  {
    if accounts != [] {
      var n := |accounts| - 1;
      ActiveRoleCountSameRoles(accounts[..n], others[..n], role);
    }
  }

  /** A positive role count has a witness: some non-deleted account of that
      role (User.findOne({ role, isDeleted: { $ne: true } }) finds one). */
  lemma {:induction false} ActiveRoleCountPositive(accounts: seq<Account>, role: string)
    ensures ActiveRoleCount(accounts, role) > 0 <==>
            exists i :: 0 <= i < |accounts| && accounts[i].role == role && !accounts[i].isDeleted
    decreases |accounts|
  {
    if accounts != [] {
      var init := accounts[..|accounts| - 1];
      ActiveRoleCountPositive(init, role);
      if ActiveRoleCount(init, role) > 0 {
        var i :| 0 <= i < |init| && init[i].role == role && !init[i].isDeleted;
        assert accounts[i] == init[i];
      }
      forall i | 0 <= i < |accounts| - 1 ensures accounts[i] == init[i] { }
    }
  }

  /** The global borrower check of the issue rule: over every account's active
      loans, how many are on (name, phone), and whether one of them is title. */
  method CountBorrowerLoans(users: seq<Account>, title: string, name: string, phone: string)
    returns (borrowerBookCount: nat, borrowerHasThisBook: bool)
    ensures borrowerBookCount == ActiveCount(users, name, phone, None)
    ensures borrowerHasThisBook <==> ActiveCount(users, name, phone, Some(title)) > 0
  {
    borrowerBookCount, borrowerHasThisBook := 0, false;
    var u := 0;
    while u < |users|
      invariant 0 <= u <= |users|
      invariant borrowerBookCount == ActiveCount(users[..u], name, phone, None)
      invariant borrowerHasThisBook <==> ActiveCount(users[..u], name, phone, Some(title)) > 0
    {
      var loans := users[u].issuedBooks;
      ghost var before := users[..u];
      ghost var hadBefore := ActiveCount(before, name, phone, Some(title));
      var i := 0;
      while i < |loans|
        invariant 0 <= i <= |loans|
        invariant borrowerBookCount == ActiveCount(before, name, phone, None) + LoanCount(loans[..i], name, phone, None)
        invariant borrowerHasThisBook <==> hadBefore + LoanCount(loans[..i], name, phone, Some(title)) > 0
      {
        var b := loans[i];
        assert loans[..i + 1][..i] == loans[..i];
        if b.borrowerName == name && b.borrowerPhone == phone {
          borrowerBookCount := borrowerBookCount + 1;
          if b.bookName == title {
            borrowerHasThisBook := true;
          }
        }
        i := i + 1;
      }
      assert loans[..i] == loans;
      assert users[..u + 1][..u] == before;
      u := u + 1;
    }
    assert users[..u] == users;
  }
}
