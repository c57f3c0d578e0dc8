/** Closing every open loan of one account at a single return date, as the
    bulk return does: each loan moves to the history, in loan order, with its
    fine, and the fines are added to the account's total. */
module Settlement {
  import opened Fines
  import opened Records

  /** The history records for a list of loans all returned at returnDate. */
  function CloseAll(loans: seq<Loan>, returnDate: int): (closed: seq<ClosedLoan>)
    ensures |closed| == |loans|
    ensures forall i :: 0 <= i < |loans| ==> closed[i] == Close(loans[i], returnDate)
  {
    if loans == [] then []
    else CloseAll(loans[..|loans| - 1], returnDate) + [Close(loans[|loans| - 1], returnDate)]
  }

  /** The sum of the fines of some history records. */
  function SumFines(closed: seq<ClosedLoan>): nat
  {
    if closed == [] then 0 else SumFines(closed[..|closed| - 1]) + closed[|closed| - 1].fine
  }

  /** The account once all its open loans are closed at returnDate. */
  function Settled(a: Account, returnDate: int): Account
  {
    a.(issuedBooks := [],
       returnHistory := a.returnHistory + CloseAll(a.issuedBooks, returnDate),
       fines := a.fines + SumFines(CloseAll(a.issuedBooks, returnDate)))
  }

  /** What settling does: no loan stays open, the old history is kept as a
      prefix, each loan's record follows in loan order with its fine, the
      new fines are added to the total, and nothing else changes. */
  lemma SettledCloses(a: Account, returnDate: int)
    ensures var s := Settled(a, returnDate);
            && s.issuedBooks == []
            && |s.returnHistory| == |a.returnHistory| + |a.issuedBooks|
            && s.returnHistory[..|a.returnHistory|] == a.returnHistory
            && (forall i :: 0 <= i < |a.issuedBooks| ==>
                  s.returnHistory[|a.returnHistory| + i] == Close(a.issuedBooks[i], returnDate))
            && s.fines == a.fines + SumFines(s.returnHistory[|a.returnHistory|..])
            && s == a.(issuedBooks := [], returnHistory := s.returnHistory, fines := s.fines)
  {
    var closed := CloseAll(a.issuedBooks, returnDate);
    assert (a.returnHistory + closed)[|a.returnHistory|..] == closed;
  }

  /** An account without open loans is left as it is. */
  lemma SettledWithoutLoans(a: Account, returnDate: int)
    requires a.issuedBooks == []
    ensures Settled(a, returnDate) == a
  {
    assert a.returnHistory + [] == a.returnHistory;
  }

  /** Closing one more loan extends the records and their fine sum by that loan's. */
  lemma CloseAllExtend(loans: seq<Loan>, i: nat, returnDate: int)
    requires i < |loans|
    ensures CloseAll(loans[..i + 1], returnDate) == CloseAll(loans[..i], returnDate) + [Close(loans[i], returnDate)]
    ensures SumFines(CloseAll(loans[..i + 1], returnDate)) ==
            SumFines(CloseAll(loans[..i], returnDate)) + Fine(loans[i].issueDate, returnDate)
  {
    var done := CloseAll(loans[..i], returnDate);
    assert loans[..i + 1][..i] == loans[..i];
    assert (done + [Close(loans[i], returnDate)])[..|done|] == done;
  }

  /** The settled account is the old one with its loans closed into history. */
  lemma SettledFrom(a: Account, returnDate: int, history: seq<ClosedLoan>, fines: nat)
    requires history == a.returnHistory + CloseAll(a.issuedBooks, returnDate)
    requires fines == a.fines + SumFines(CloseAll(a.issuedBooks, returnDate))
    ensures a.(issuedBooks := [], returnHistory := history, fines := fines) == Settled(a, returnDate)
  {
  }

  /** The loop body of the bulk return over one account's issuedBooks. */
  method SettleAccount(user: Account, returnDate: int) returns (settled: Account)
    ensures settled == Settled(user, returnDate)
  {
    var loans := user.issuedBooks;
    var fines, history := user.fines, user.returnHistory;
    var i := 0;
    while i < |loans|
      invariant 0 <= i <= |loans|
      invariant history == user.returnHistory + CloseAll(loans[..i], returnDate)
      invariant fines == user.fines + SumFines(CloseAll(loans[..i], returnDate))
    {
      var b := loans[i];
      var fine := Fine(b.issueDate, returnDate);
      CloseAllExtend(loans, i, returnDate);
      ghost var done := CloseAll(loans[..i], returnDate);
      assert (user.returnHistory + done) + [Close(b, returnDate)] == user.returnHistory + (done + [Close(b, returnDate)]);
      fines := fines + fine;
      history := history + [ClosedLoan(b.bookName, b.borrowerName, b.borrowerPhone, b.issueDate, returnDate, fine)];
      i := i + 1;
    }
    assert loans[..i] == loans;
    SettledFrom(user, returnDate, history, fines);
    settled := user.(issuedBooks := [], returnHistory := history, fines := fines);

  }

  /** The account after its open loan at index i is returned at returnDate:
      the loan leaves issuedBooks, its record is appended to the history and
      its fine is added to the account's total. */
  function Discharged(a: Account, i: nat, returnDate: int): Account
    requires i < |a.issuedBooks|
  {
    a.(issuedBooks := RemoveAt(a.issuedBooks, i),
       returnHistory := a.returnHistory + [Close(a.issuedBooks[i], returnDate)],
       fines := a.fines + Fine(a.issuedBooks[i].issueDate, returnDate))
  }

  /** Returning the account's loans one at a time, always the first open one. */
  function ReturnEach(a: Account, returnDate: int): Account
    decreases |a.issuedBooks|
  {
    if a.issuedBooks == [] then a else ReturnEach(Discharged(a, 0, returnDate), returnDate)
  }

  lemma {:induction false} SumFinesConcat(x: seq<ClosedLoan>, y: seq<ClosedLoan>)
    ensures SumFines(x + y) == SumFines(x) + SumFines(y)
    decreases |y|
  {
    if y == [] {
      assert x + y == x;
    } else {
      assert (x + y)[..|x + y| - 1] == x + y[..|y| - 1];
      SumFinesConcat(x, y[..|y| - 1]);
    }
  }

  /** Returning the first loan leaves the rest open, in order ... */
  lemma FirstReturnLeavesRest(a: Account, returnDate: int)
    requires a.issuedBooks != []
    ensures Discharged(a, 0, returnDate).issuedBooks == a.issuedBooks[1..]
  {
  }

  /** The records of a list of loans are those of its first loan followed by the rest's. */
  lemma CloseAllFront(loans: seq<Loan>, returnDate: int)
    requires loans != []
    ensures CloseAll(loans, returnDate) == [Close(loans[0], returnDate)] + CloseAll(loans[1..], returnDate)
  {
  }

  /** ... and after it, closing the rest yields the history and the fines
      that closing them all yields. */
  lemma FirstReturnHistory(a: Account, returnDate: int)
    requires a.issuedBooks != []
    ensures var d := Discharged(a, 0, returnDate);
            d.returnHistory + CloseAll(a.issuedBooks[1..], returnDate) == a.returnHistory + CloseAll(a.issuedBooks, returnDate)
  {
    var loans := a.issuedBooks;
    CloseAllFront(loans, returnDate);
    var first := [Close(loans[0], returnDate)];
    var rest := CloseAll(loans[1..], returnDate);
    assert a.returnHistory + (first + rest) == (a.returnHistory + first) + rest;
  }

  lemma FirstReturnFines(a: Account, returnDate: int)
    requires a.issuedBooks != []
    ensures var d := Discharged(a, 0, returnDate);
            d.fines + SumFines(CloseAll(a.issuedBooks[1..], returnDate)) == a.fines + SumFines(CloseAll(a.issuedBooks, returnDate))
  {
    var loans := a.issuedBooks;
    var first := [Close(loans[0], returnDate)];
    var rest := CloseAll(loans[1..], returnDate);
    CloseAllFront(loans, returnDate);
    SumFinesConcat(first, rest);
    assert first[..0] == [];
  }

  /** Returning the first open loan and then settling the rest gives the
      same account as settling them all. */
  lemma SettleAfterFirstReturn(a: Account, returnDate: int)
    requires a.issuedBooks != []
    ensures Settled(Discharged(a, 0, returnDate), returnDate) == Settled(a, returnDate)
  {
    var d := Discharged(a, 0, returnDate);
    FirstReturnLeavesRest(a, returnDate);
    FirstReturnHistory(a, returnDate);
    FirstReturnFines(a, returnDate);
    var history := a.returnHistory + CloseAll(a.issuedBooks, returnDate);
    var fines := a.fines + SumFines(CloseAll(a.issuedBooks, returnDate));
    SettledFrom(a, returnDate, history, fines);
    SettledFrom(d, returnDate, history, fines);
  }

  /** Settling the loans at once is the same as returning them one by one in
      loan order at the same date. */
  lemma {:induction false} SettledIsReturnEach(a: Account, returnDate: int)
    ensures Settled(a, returnDate) == ReturnEach(a, returnDate)
    decreases |a.issuedBooks|
  {
    if a.issuedBooks == [] {
      SettledWithoutLoans(a, returnDate);
    } else {
      SettledIsReturnEach(Discharged(a, 0, returnDate), returnDate);
      SettleAfterFirstReturn(a, returnDate);
    }
  }
}
