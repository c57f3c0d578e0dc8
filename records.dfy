/** The two stored record types (books and accounts), the loan records an
    account embeds, and the first-match lookups the handlers use to find them. */
module Records {
  import opened Fines

  datatype Option<T> = None | Some(value: T)

  /** The stored bookState string; the handlers only ever write these two. */
  datatype BookState = Available | Issued

  /** A catalogue entry. Only the fields the lending rules read or write are
      kept: the title (the lookup key), the copies owned, the copies on loan
      and the state. New and seeded books have quantity 10 and issued 0. */
  datatype Book = Book(bookName: string, quantity: nat, issued: nat, bookState: BookState)

  /** An entry of an account's issuedBooks: an open loan. */
  datatype Loan = Loan(bookName: string, borrowerName: string, borrowerPhone: string, issueDate: int)

  /** An entry of an account's returnHistory: a closed loan with its fine. */
  datatype ClosedLoan = ClosedLoan(
    bookName: string, borrowerName: string, borrowerPhone: string,
    issueDate: int, returnDate: int, fine: nat)

  /** A staff or user account. Password hashes are not kept: the outcome of
      comparing a password is an input of the login step. lockUntil is a
      millisecond timestamp or null. */
  datatype Account = Account(
    username: string,
    originalUsername: Option<string>,
    role: string,
    fines: nat,
    isDeleted: bool,
    issuedBooks: seq<Loan>,
    returnHistory: seq<ClosedLoan>,
    failedLoginAttempts: nat,
    totalFailedAttempts: nat,
    lockUntil: Option<int>)

  const LibrarianRole: string := "Librarian"
  const AssistantRole: string := "Assistant"

  /** A freshly created account of the given role: every counter at its
      schema default, no loans, no history, no lock. */
  function NewAccount(username: string, role: string): (a: Account)
    ensures a.username == username && a.role == role && !a.isDeleted
    ensures a.issuedBooks == [] && a.returnHistory == [] && a.fines == 0
    ensures a.failedLoginAttempts == 0 && a.totalFailedAttempts == 0 && a.lockUntil == None
    ensures a.originalUsername == None
  {
    Account(username, None, role, 0, false, [], [], 0, 0, None)
  }

  /** Index of the first element satisfying p; the shape of Mongo's findOne
      over an ordered collection and of Array.prototype.findIndex. */
  function FirstIndex<T>(s: seq<T>, p: T -> bool): (r: Option<nat>)
    ensures r.Some? ==> r.value < |s| && p(s[r.value])
    ensures r.Some? ==> forall j :: 0 <= j < r.value ==> !p(s[j])
    ensures r.None? ==> forall j :: 0 <= j < |s| ==> !p(s[j])
  {
    if s == [] then None
    else if p(s[0]) then Some(0)
    else match FirstIndex(s[1..], p)
      case None => None
      case Some(i) => Some(i + 1)
  }

  predicate HasTitle(b: Book, title: string)
  {
    b.bookName == title
  }

  predicate HasUsername(a: Account, username: string)
  {
    a.username == username
  }

  /** True when the loan is for exactly this (title, borrower name, phone). */
  predicate SameLoan(l: Loan, title: string, name: string, phone: string)
  {
    l.bookName == title && l.borrowerName == name && l.borrowerPhone == phone
  }

  /** Book.findOne({ bookName }): the first book with that title. The
      catalogue may hold several books with one title. */
  function FindBook(books: seq<Book>, title: string): (r: Option<nat>)
    ensures r.Some? ==> r.value < |books| && books[r.value].bookName == title
    ensures r.Some? ==> forall j :: 0 <= j < r.value ==> books[j].bookName != title
    ensures r.None? ==> forall j :: 0 <= j < |books| ==> books[j].bookName != title
  {
    FirstIndex(books, b => HasTitle(b, title))
  }

  /** User.findOne({ username }): the first account with that username. */
  function FindAccount(accounts: seq<Account>, username: string): (r: Option<nat>)
    ensures r.Some? ==> r.value < |accounts| && accounts[r.value].username == username
    ensures r.Some? ==> forall j :: 0 <= j < r.value ==> accounts[j].username != username
    ensures r.None? ==> forall j :: 0 <= j < |accounts| ==> accounts[j].username != username
  {
    FirstIndex(accounts, a => HasUsername(a, username))
  }

  /** issuedBooks.findIndex on the (title, name, phone) triple. */
  function FindLoan(loans: seq<Loan>, title: string, name: string, phone: string): (r: Option<nat>)
    ensures r.Some? ==> r.value < |loans| && SameLoan(loans[r.value], title, name, phone)
    ensures r.Some? ==> forall j :: 0 <= j < r.value ==> !SameLoan(loans[j], title, name, phone)
    ensures r.None? ==> forall j :: 0 <= j < |loans| ==> !SameLoan(loans[j], title, name, phone)
  {
    FirstIndex(loans, l => SameLoan(l, title, name, phone))
  }

  /** Replacing the first account with a username by one with the same
      username leaves it the first. */
  lemma FindAccountAfterUpdate(accounts: seq<Account>, username: string, a: Account)
    requires FindAccount(accounts, username).Some?
    requires a.username == username
    ensures FindAccount(accounts[FindAccount(accounts, username).value := a], username) == FindAccount(accounts, username)
  {
    var k := FindAccount(accounts, username).value;
    var r := FindAccount(accounts[k := a], username);
    assert accounts[k := a][k].username == username;
  }

  /** Replacing the first book with a title by one with the same title
      leaves it the first. */
  lemma FindBookAfterUpdate(books: seq<Book>, title: string, b: Book)
    requires FindBook(books, title).Some?
    requires b.bookName == title
    ensures FindBook(books[FindBook(books, title).value := b], title) == FindBook(books, title)
  {
    var k := FindBook(books, title).value;
    var r := FindBook(books[k := b], title);
    assert books[k := b][k].bookName == title;
  }

  /** The history record written when a loan is returned at returnDate: the
      loan's own fields, the return date and the fine. */
  function Close(l: Loan, returnDate: int): ClosedLoan
  {
    ClosedLoan(l.bookName, l.borrowerName, l.borrowerPhone, l.issueDate, returnDate,
               Fine(l.issueDate, returnDate))
  }

  /** The sequence with its element at index i taken out (Array.splice(i, 1)). */
  function RemoveAt<T>(s: seq<T>, i: nat): (r: seq<T>)
    requires i < |s|
    ensures |r| == |s| - 1
    ensures forall j :: 0 <= j < i ==> r[j] == s[j]
    ensures forall j :: i <= j < |r| ==> r[j] == s[j + 1]
  {
    s[..i] + s[i + 1..]
  }
}
