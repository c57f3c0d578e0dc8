/** The read-only reports over the account store: the statistics of one
    borrower, searched by name, and the five borrowers with the most loans. */
module Reports {
  import opened Records
  import opened Quotas
  import opened Settlement

  // ---------------------------------------------------------------------
  // Borrower statistics

  /** ASCII lower case; every other character is left as it is. */
  function Lower(c: char): char
  {
    if 'A' <= c <= 'Z' then (c as int - 'A' as int + 'a' as int) as char else c
  }

  function LowerCase(s: string): (r: string)
    ensures |r| == |s|
  {
    seq(|s|, i requires 0 <= i < |s| => Lower(s[i]))
  }

  /** A record's borrower name is set and equals the query up to case. */
  predicate NameMatches(borrowerName: string, query: string)
  {
    borrowerName != "" && LowerCase(borrowerName) == LowerCase(query)
  }

  datatype Stats = Stats(totalBorrowed: nat, returnedCount: nat, notReturnedCount: nat, totalFine: nat)

  /** Active loans of the list whose borrower matches the query. */
  function ActiveMatches(loans: seq<Loan>, query: string): nat
  {
    if loans == [] then 0
    else ActiveMatches(loans[..|loans| - 1], query) + (if NameMatches(loans[|loans| - 1].borrowerName, query) then 1 else 0)
  }

  /** History records of the list whose borrower matches the query. */
  function ClosedMatches(closed: seq<ClosedLoan>, query: string): nat
  {
    if closed == [] then 0
    else ClosedMatches(closed[..|closed| - 1], query) + (if NameMatches(closed[|closed| - 1].borrowerName, query) then 1 else 0)
  }

  /** The fines of the matching history records. */
  function ClosedFines(closed: seq<ClosedLoan>, query: string): nat
  {
    if closed == [] then 0
    else ClosedFines(closed[..|closed| - 1], query)
         + (if NameMatches(closed[|closed| - 1].borrowerName, query) then closed[|closed| - 1].fine else 0)
  }

  /** Matching active loans over every account, deleted ones included. */
  function ActiveTotal(accounts: seq<Account>, query: string): nat
  {
    if accounts == [] then 0
    else ActiveTotal(accounts[..|accounts| - 1], query) + ActiveMatches(accounts[|accounts| - 1].issuedBooks, query)
  }

  function ClosedTotal(accounts: seq<Account>, query: string): nat
  {
    if accounts == [] then 0
    else ClosedTotal(accounts[..|accounts| - 1], query) + ClosedMatches(accounts[|accounts| - 1].returnHistory, query)
  }

  function FineTotal(accounts: seq<Account>, query: string): nat
  {
    if accounts == [] then 0
    else FineTotal(accounts[..|accounts| - 1], query) + ClosedFines(accounts[|accounts| - 1].returnHistory, query)
  }

  /** The statistics the search reports: every matching record is borrowed,
      the history ones are returned and the active ones are not, and the
      fines are those of the history ones. */
  function Totals(accounts: seq<Account>, query: string): Stats
  {
    var active := ActiveTotal(accounts, query);
    var closed := ClosedTotal(accounts, query);
    Stats(active + closed, closed, active, FineTotal(accounts, query))
  }

  /** One more loan adds its own match to the count so far. */
  lemma ActiveMatchesStep(loans: seq<Loan>, i: nat, query: string)
    requires i < |loans|
    ensures ActiveMatches(loans[..i + 1], query) ==
            ActiveMatches(loans[..i], query) + (if NameMatches(loans[i].borrowerName, query) then 1 else 0)
  {
    assert loans[..i + 1][..i] == loans[..i];
  }

  /** One more history record adds its own match and fine. */
  lemma ClosedMatchesStep(history: seq<ClosedLoan>, j: nat, query: string)
    requires j < |history|
    ensures ClosedMatches(history[..j + 1], query) ==
            ClosedMatches(history[..j], query) + (if NameMatches(history[j].borrowerName, query) then 1 else 0)
    ensures ClosedFines(history[..j + 1], query) ==
            ClosedFines(history[..j], query) + (if NameMatches(history[j].borrowerName, query) then history[j].fine else 0)
  {
    assert history[..j + 1][..j] == history[..j];
  }

  /** One more account adds its own matches and fines. */
  lemma TotalsStep(accounts: seq<Account>, u: nat, query: string)
    requires u < |accounts|
    ensures ActiveTotal(accounts[..u + 1], query) == ActiveTotal(accounts[..u], query) + ActiveMatches(accounts[u].issuedBooks, query)
    ensures ClosedTotal(accounts[..u + 1], query) == ClosedTotal(accounts[..u], query) + ClosedMatches(accounts[u].returnHistory, query)
    ensures FineTotal(accounts[..u + 1], query) == FineTotal(accounts[..u], query) + ClosedFines(accounts[u].returnHistory, query)
  {
    assert accounts[..u + 1][..u] == accounts[..u];
  }

  datatype StatsResult =
    | EmptyQuery          // no borrower name was entered
    | NoRecords           // no loan, active or returned, matches the name
    | Found(stats: Stats)

  /** The borrower search of the history page. The counters are bumped
      independently, one record at a time; the result still balances. */
  method BorrowerStats(accounts: seq<Account>, borrowerName: string) returns (r: StatsResult)
    ensures r == EmptyQuery <==> borrowerName == ""
    ensures borrowerName != "" ==> (r == NoRecords <==> Totals(accounts, borrowerName).totalBorrowed == 0)
    ensures r.Found? ==> r.stats == Totals(accounts, borrowerName)
    ensures r.Found? ==> r.stats.totalBorrowed > 0
                         && r.stats.totalBorrowed == r.stats.returnedCount + r.stats.notReturnedCount
  {
    if borrowerName == "" {
      return EmptyQuery;
    }
    var query := LowerCase(borrowerName);
    var totalBorrowed: nat, returnedCount: nat, notReturnedCount: nat, totalFine: nat := 0, 0, 0, 0;
    var u := 0;
    while u < |accounts|
      invariant 0 <= u <= |accounts|
      invariant notReturnedCount == ActiveTotal(accounts[..u], borrowerName)
      invariant returnedCount == ClosedTotal(accounts[..u], borrowerName)
      invariant totalFine == FineTotal(accounts[..u], borrowerName)
      invariant totalBorrowed == returnedCount + notReturnedCount
    {
      ghost var prefix := accounts[..u];
      var loans := accounts[u].issuedBooks;
      var i := 0;
      while i < |loans|
        invariant 0 <= i <= |loans|
        invariant notReturnedCount == ActiveTotal(prefix, borrowerName) + ActiveMatches(loans[..i], borrowerName)
        invariant returnedCount == ClosedTotal(prefix, borrowerName)
        invariant totalFine == FineTotal(prefix, borrowerName)
        invariant totalBorrowed == returnedCount + notReturnedCount
      {
        var b := loans[i];
        if b.borrowerName != "" && LowerCase(b.borrowerName) == query {
          totalBorrowed := totalBorrowed + 1;
          notReturnedCount := notReturnedCount + 1;
        }
        ActiveMatchesStep(loans, i, borrowerName);
        i := i + 1;
      }
      assert loans[..i] == loans;
      var history := accounts[u].returnHistory;
      var j := 0;
      while j < |history|
        invariant 0 <= j <= |history|
        invariant notReturnedCount == ActiveTotal(prefix, borrowerName) + ActiveMatches(loans, borrowerName)
        invariant returnedCount == ClosedTotal(prefix, borrowerName) + ClosedMatches(history[..j], borrowerName)
        invariant totalFine == FineTotal(prefix, borrowerName) + ClosedFines(history[..j], borrowerName)
        invariant totalBorrowed == returnedCount + notReturnedCount
      {
        var b := history[j];
        if b.borrowerName != "" && LowerCase(b.borrowerName) == query {
          totalBorrowed := totalBorrowed + 1;
          returnedCount := returnedCount + 1;
          totalFine := totalFine + b.fine;
        }
        ClosedMatchesStep(history, j, borrowerName);
        j := j + 1;
      }
      assert history[..j] == history;
      TotalsStep(accounts, u, borrowerName);
      u := u + 1;
    }
    assert accounts[..u] == accounts;
    if totalBorrowed == 0 {
      return NoRecords;
    }
    return Found(Stats(totalBorrowed, returnedCount, notReturnedCount, totalFine));
  }

  /** A loan the quota check counts for (name, phone) is one the borrower
      search for name shows as not returned. */
  lemma {:induction false} LoanCountInStats(loans: seq<Loan>, name: string, phone: string)
    requires name != ""
    ensures LoanCount(loans, name, phone, None) <= ActiveMatches(loans, name)
    decreases |loans|
  {
    if loans != [] {
      LoanCountInStats(loans[..|loans| - 1], name, phone);
    }
  }

  /** The borrower search never shows fewer active loans than the borrower
      quota counts for the same name under any phone number. */
  lemma {:induction false} QuotaCountInStats(accounts: seq<Account>, name: string, phone: string)
    requires name != ""
    ensures ActiveCount(accounts, name, phone, None) <= Totals(accounts, name).notReturnedCount
    decreases |accounts|
  {
    if accounts != [] {
      QuotaCountInStats(accounts[..|accounts| - 1], name, phone);
      LoanCountInStats(accounts[|accounts| - 1].issuedBooks, name, phone);
    }
  }

  lemma {:induction false} ClosedMatchesConcat(x: seq<ClosedLoan>, y: seq<ClosedLoan>, query: string)
    ensures ClosedMatches(x + y, query) == ClosedMatches(x, query) + ClosedMatches(y, query)
    ensures ClosedFines(x + y, query) == ClosedFines(x, query) + ClosedFines(y, query)
    decreases |y|
  {
    if y == [] {
      assert x + y == x;
    } else {
      assert (x + y)[..|x + y| - 1] == x + y[..|y| - 1];
      ClosedMatchesConcat(x, y[..|y| - 1], query);
    }
  }

  /** Closing loans turns each matching active loan into a matching returned one. */
  lemma {:induction false} ClosedOfCloseAll(loans: seq<Loan>, returnDate: int, query: string)
    ensures ClosedMatches(CloseAll(loans, returnDate), query) == ActiveMatches(loans, query)
    decreases |loans|
  {
    if loans != [] {
      var init := loans[..|loans| - 1];
      ClosedOfCloseAll(init, returnDate, query);
      var closed := CloseAll(loans, returnDate);
      assert closed[..|closed| - 1] == CloseAll(init, returnDate);
    }
  }

  /** Settling an account at the bulk return leaves no active match, turns
      every active match into a returned one, and never lowers the fines. */
  lemma SettledStats(a: Account, returnDate: int, query: string)
    ensures var s := Settled(a, returnDate);
            && ActiveMatches(s.issuedBooks, query) == 0
            && ClosedMatches(s.returnHistory, query) == ClosedMatches(a.returnHistory, query) + ActiveMatches(a.issuedBooks, query)
            && ClosedFines(s.returnHistory, query) >= ClosedFines(a.returnHistory, query)
  {
    ClosedMatchesConcat(a.returnHistory, CloseAll(a.issuedBooks, returnDate), query);
    ClosedOfCloseAll(a.issuedBooks, returnDate, query);
  }

  /** After the bulk return, the borrower search shows the same number of
      loans, none of them still active, and fines no lower than before. */
  lemma {:induction false} ReturnAllStats(accounts: seq<Account>, accounts1: seq<Account>, returnDate: int, query: string)
    requires |accounts1| == |accounts|
    requires forall j :: 0 <= j < |accounts| ==> accounts1[j] == Settled(accounts[j], returnDate)
    ensures var s := Totals(accounts1, query);
            var o := Totals(accounts, query);
            && s.totalBorrowed == o.totalBorrowed
            && s.notReturnedCount == 0
            && s.returnedCount == o.returnedCount + o.notReturnedCount
            && s.totalFine >= o.totalFine
    decreases |accounts|
  {
    if accounts != [] {
      var n := |accounts| - 1;
      ReturnAllStats(accounts[..n], accounts1[..n], returnDate, query);
      SettledStats(accounts[n], returnDate, query);
      assert accounts1[..n + 1][..n] == accounts1[..n];
    }
  }

  // ---------------------------------------------------------------------
  // Top borrowers

  /** The tally of the admin page: borrower names in the order first seen,
      and each one's number of loans. */
  datatype Tally = Tally(order: seq<string>, counts: map<string, nat>)

  const NoTally := Tally([], map[])

  function Count(t: Tally, name: string): nat
  {
    if name in t.counts then t.counts[name] else 0
  }

  /** One more loan for name; loans without a borrower name are skipped. */
  function Bump(t: Tally, name: string): Tally
  {
    if name == "" then t
    else Tally(if name in t.counts then t.order else t.order + [name], t.counts[name := Count(t, name) + 1])
  }

  function Fold(t: Tally, names: seq<string>): Tally
  {
    if names == [] then t else Bump(Fold(t, names[..|names| - 1]), names[|names| - 1])
  }

  function LoanNames(loans: seq<Loan>): (names: seq<string>)
    ensures |names| == |loans|
  {
    if loans == [] then [] else LoanNames(loans[..|loans| - 1]) + [loans[|loans| - 1].borrowerName]
  }

  function ClosedNames(closed: seq<ClosedLoan>): (names: seq<string>)
    ensures |names| == |closed|
  {
    if closed == [] then [] else ClosedNames(closed[..|closed| - 1]) + [closed[|closed| - 1].borrowerName]
  }

  /** The borrower name of every loan, active ones first within each account,
      in account order. */
  function BorrowerNames(accounts: seq<Account>): seq<string>
  {
    if accounts == [] then []
    else
      var a := accounts[|accounts| - 1];
      BorrowerNames(accounts[..|accounts| - 1]) + LoanNames(a.issuedBooks) + ClosedNames(a.returnHistory)
  }

  /** The tally keeps each set name once, in order, with a positive count. */
  ghost predicate TallyOk(t: Tally)
  {
    && (forall name :: name in t.counts <==> name in t.order)
    && (forall i, j :: 0 <= i < j < |t.order| ==> t.order[i] != t.order[j])
    && "" !in t.counts
    && (forall name :: name in t.counts ==> t.counts[name] > 0)
  }

  lemma {:induction false} FoldConcat(t: Tally, xs: seq<string>, ys: seq<string>)
    ensures Fold(t, xs + ys) == Fold(Fold(t, xs), ys)
    decreases |ys|
  {
    if ys == [] {
      assert xs + ys == xs;
    } else {
      assert (xs + ys)[..|xs + ys| - 1] == xs + ys[..|ys| - 1];
      FoldConcat(t, xs, ys[..|ys| - 1]);
    }
  }

  /** The names of one more loan are the names so far and its borrower's. */
  lemma LoanNamesStep(loans: seq<Loan>, i: nat)
    requires i < |loans|
    ensures LoanNames(loans[..i + 1]) == LoanNames(loans[..i]) + [loans[i].borrowerName]
  {
    assert loans[..i + 1][..i] == loans[..i];
  }

  lemma ClosedNamesStep(history: seq<ClosedLoan>, j: nat)
    requires j < |history|
    ensures ClosedNames(history[..j + 1]) == ClosedNames(history[..j]) + [history[j].borrowerName]
  {
    assert history[..j + 1][..j] == history[..j];
  }

  lemma FoldSnoc(t: Tally, xs: seq<string>, name: string)
    ensures Fold(t, xs + [name]) == Bump(Fold(t, xs), name)
  {
    assert (xs + [name])[..|xs|] == xs;
  }

  /** The tally of a list of names holds each set name with its number of
      occurrences, and no other. */
  lemma {:induction false} FoldCounts(t: Tally, names: seq<string>)
    requires TallyOk(t)
    ensures TallyOk(Fold(t, names))
    ensures forall name :: name != "" ==> Count(Fold(t, names), name) == Count(t, name) + multiset(names)[name]
    decreases |names|
  {
    if names != [] {
      var init := names[..|names| - 1];
      var last := names[|names| - 1];
      FoldCounts(t, init);
      assert names == init + [last];
      var f := Fold(t, init);
      if last != "" && last !in f.counts {
        forall i, j | 0 <= i < j < |f.order| + 1 ensures (f.order + [last])[i] != (f.order + [last])[j] {
          if j == |f.order| {
            assert f.order[i] in f.counts;
          }
        }
      }
    }
  }

  /** The set names of the list that are not in seen, each once, in the
      order of their first occurrence. */
  function FirstSeen(seen: seq<string>, names: seq<string>): seq<string>
  {
    if names == [] then []
    else
      var earlier := FirstSeen(seen, names[..|names| - 1]);
      var last := names[|names| - 1];
      if last == "" || last in seen || last in earlier then earlier else earlier + [last]
  }

  /** A name is first seen in the list exactly when it is set, new and occurs. */
  lemma {:induction false} FirstSeenMembers(seen: seq<string>, names: seq<string>, x: string)
    ensures x in FirstSeen(seen, names) <==> x != "" && x !in seen && x in names
    decreases |names|
  {
    if names != [] {
      var init := names[..|names| - 1];
      FirstSeenMembers(seen, init, x);
      assert names == init + [names[|names| - 1]];
    }
  }

  /** The tally lists its names in the order they were first seen: the old
      ones first, then each new set name at its first occurrence. */
  lemma {:induction false} FoldOrder(t: Tally, names: seq<string>)
    requires TallyOk(t)
    ensures Fold(t, names).order == t.order + FirstSeen(t.order, names)
    decreases |names|
  {
    if names != [] {
      var init := names[..|names| - 1];
      var last := names[|names| - 1];
      FoldOrder(t, init);
      FoldCounts(t, init);
      var f := Fold(t, init);
      var earlier := FirstSeen(t.order, init);
      assert last in f.order <==> last in t.order || last in earlier;
      if last != "" && !(last in t.order || last in earlier) {
        assert f.order + [last] == t.order + (earlier + [last]);
      }
    }
  }

  /** One more loan for each set borrower name of the active loans, in order. */
  method TallyLoans(t0: Tally, loans: seq<Loan>) returns (t: Tally)
    ensures t == Fold(t0, LoanNames(loans))
  {
    t := t0;
    var i := 0;
    ghost var seen: seq<string> := [];
    while i < |loans|
      invariant 0 <= i <= |loans|
      invariant seen == LoanNames(loans[..i])
      invariant t == Fold(t0, seen)
    {
      var name := loans[i].borrowerName;
      FoldSnoc(t0, seen, name);
      LoanNamesStep(loans, i);
      t := Bump(t, name);
      seen := seen + [name];
      i := i + 1;
    }
    assert loans[..i] == loans;
  }

  /** The same over the history records. */
  method TallyHistory(t0: Tally, history: seq<ClosedLoan>) returns (t: Tally)
    ensures t == Fold(t0, ClosedNames(history))
  {
    t := t0;
    var j := 0;
    ghost var seen: seq<string> := [];
    while j < |history|
      invariant 0 <= j <= |history|
      invariant seen == ClosedNames(history[..j])
      invariant t == Fold(t0, seen)
    {
      var name := history[j].borrowerName;
      FoldSnoc(t0, seen, name);
      ClosedNamesStep(history, j);
      t := Bump(t, name);
      seen := seen + [name];
      j := j + 1;
    }
    assert history[..j] == history;
  }

  /** The tally loop of the admin page: every account's active loans, then
      its history. */
  method CountBorrowers(accounts: seq<Account>) returns (t: Tally)
    ensures t == Fold(NoTally, BorrowerNames(accounts))
  {
    t := NoTally;
    var u := 0;
    while u < |accounts|
      invariant 0 <= u <= |accounts|
      invariant t == Fold(NoTally, BorrowerNames(accounts[..u]))
    {
      ghost var before := BorrowerNames(accounts[..u]);
      t := TallyLoans(t, accounts[u].issuedBooks);
      t := TallyHistory(t, accounts[u].returnHistory);
      assert accounts[..u + 1][..u] == accounts[..u];
      FoldConcat(NoTally, before, LoanNames(accounts[u].issuedBooks));
      FoldConcat(NoTally, before + LoanNames(accounts[u].issuedBooks), ClosedNames(accounts[u].returnHistory));
      u := u + 1;
    }
    assert accounts[..u] == accounts;
  }

  datatype Entry = Entry(name: string, count: nat)

  predicate SortedByCount(s: seq<Entry>)
  {
    forall i, j :: 0 <= i < j < |s| ==> s[i].count >= s[j].count
  }

  /** Insert e before the first entry whose count is not above its own. */
  function Insert(e: Entry, s: seq<Entry>): seq<Entry>
  {
    if s == [] || s[0].count <= e.count then [e] + s else [s[0]] + Insert(e, s[1..])
  }

  /** The insertion sort by count, highest first. */
  function SortByCount(s: seq<Entry>): seq<Entry>
  {
    if s == [] then [] else Insert(s[0], SortByCount(s[1..]))
  }

  lemma {:induction false} InsertSorted(e: Entry, s: seq<Entry>)
    requires SortedByCount(s)
    ensures SortedByCount(Insert(e, s))
    ensures multiset(Insert(e, s)) == multiset(s) + multiset{e}
    ensures Insert(e, s) != [] && (Insert(e, s)[0] == e || Insert(e, s)[0] == s[0])
    decreases |s|
  {
    if s != [] && s[0].count > e.count {
      var tail := s[1..];
      assert SortedByCount(tail) by {
        forall i, j | 0 <= i < j < |tail| ensures tail[i].count >= tail[j].count {
          assert tail[i] == s[i + 1] && tail[j] == s[j + 1];
        }
      }
      var rest := Insert(e, tail);
      InsertSorted(e, tail);
      assert tail != [] ==> s[0].count >= tail[0].count by {
        if tail != [] { assert tail[0] == s[1]; }
      }
      ConsSorted(s[0], rest);
      assert s == [s[0]] + tail;
      assert Insert(e, s) == [s[0]] + rest;
    }
  }

  /** An entry whose count is not below the head of a sorted list can go in front of it. */
  lemma ConsSorted(x: Entry, rest: seq<Entry>)
    requires SortedByCount(rest) && (rest == [] || x.count >= rest[0].count)
    ensures SortedByCount([x] + rest)
  {
    var r := [x] + rest;
    forall i, j | 0 <= i < j < |r| ensures r[i].count >= r[j].count {
      assert r[j] == rest[j - 1];
      if i == 0 {
        assert rest[0].count >= rest[j - 1].count || j - 1 == 0;
      } else {
        assert r[i] == rest[i - 1];
      }
    }
  }

  lemma {:induction false} SortByCountSorts(s: seq<Entry>)
    ensures SortedByCount(SortByCount(s))
    ensures multiset(SortByCount(s)) == multiset(s)
    decreases |s|
  {
    if s != [] {
      SortByCountSorts(s[1..]);
      InsertSorted(s[0], SortByCount(s[1..]));
      assert s == [s[0]] + s[1..];
    }
  }

  const TopCount: nat := 5

  /** The sorted entries, cut to the first five. */
  function TopFive(entries: seq<Entry>): seq<Entry>
  {
    var sorted := SortByCount(entries);
    if |sorted| <= TopCount then sorted else sorted[..TopCount]
  }

  /** In a sorted list, every entry past position k has a count no higher
      than any entry before it. */
  lemma SortedPrefixDominates(sorted: seq<Entry>, k: nat)
    requires SortedByCount(sorted) && k <= |sorted|
    ensures forall e :: e in sorted[k..] ==> forall i :: 0 <= i < k ==> sorted[i].count >= e.count
  {
    forall e | e in sorted[k..] ensures forall i :: 0 <= i < k ==> sorted[i].count >= e.count {
      var j :| 0 <= j < |sorted[k..]| && sorted[k..][j] == e;
      assert sorted[k + j] == e;
    }
  }

  /** The cut keeps the five highest counts: every entry left out has a
      count no higher than any entry kept, and an entry is left out only
      when five are kept. */
  lemma TopFiveIsTop(entries: seq<Entry>)
    ensures var top := TopFive(entries);
            && SortedByCount(top)
            && |top| == (if |entries| <= TopCount then |entries| else TopCount)
            && multiset(top) <= multiset(entries)
            && (forall e :: e in entries && e !in top ==>
                  |top| == TopCount && forall i :: 0 <= i < |top| ==> top[i].count >= e.count)
  {
    var sorted := SortByCount(entries);
    SortByCountSorts(entries);
    assert |sorted| == |entries| by {
      assert |multiset(sorted)| == |multiset(entries)|;
    }
    var top := TopFive(entries);
    forall e | e in entries ensures e in sorted {
      assert e in multiset(sorted);
    }
    if |sorted| > TopCount {
      assert sorted == top + sorted[TopCount..];
      SortedPrefixDominates(sorted, TopCount);
      assert multiset(sorted) == multiset(top) + multiset(sorted[TopCount..]);
    }
  }

  /** The tally as the list of its entries, in first-seen order. */
  function Entries(t: Tally): seq<Entry>
  {
    seq(|t.order|, i requires 0 <= i < |t.order| => Entry(t.order[i], Count(t, t.order[i])))
  }

  /** No name is listed twice. */
  predicate DistinctNames(s: seq<Entry>)
  {
    forall i, j :: 0 <= i < j < |s| ==> s[i].name != s[j].name
  }

  /** A tally lists each of its names once. */
  lemma EntriesDistinct(t: Tally)
    requires TallyOk(t)
    ensures DistinctNames(Entries(t))
  {
    forall i, j | 0 <= i < j < |Entries(t)| ensures Entries(t)[i].name != Entries(t)[j].name {
      assert Entries(t)[i].name == t.order[i] && Entries(t)[j].name == t.order[j];
    }
  }

  /** In a list of distinct names, an entry occurs at most once. */
  lemma {:induction false} DistinctOccursOnce(s: seq<Entry>, e: Entry)
    requires DistinctNames(s)
    ensures multiset(s)[e] <= 1
    decreases |s|
  {
    if s != [] {
      var rest := s[1..];
      forall i, j | 0 <= i < j < |rest| ensures rest[i].name != rest[j].name {
        assert rest[i] == s[i + 1] && rest[j] == s[j + 1];
      }
      DistinctOccursOnce(rest, e);
      assert s == [s[0]] + rest;
      if s[0] == e {
        forall k | 0 <= k < |rest| ensures rest[k] != e {
          assert rest[k] == s[k + 1];
        }
        assert multiset(rest)[e] == 0;
      }
    }
  }

  /** An entry at position i occurs once more for each later position holding it too. */
  lemma PairCount(s: seq<Entry>, i: nat, j: nat)
    requires i < j < |s|
    ensures multiset(s)[s[i]] >= 1 + (if s[i] == s[j] then 1 else 0)
  {
    assert s == s[..j] + [s[j]] + s[j + 1..];
    assert s[..j][i] == s[i];
    assert multiset(s)[s[i]] == multiset(s[..j])[s[i]] + multiset([s[j]])[s[i]] + multiset(s[j + 1..])[s[i]];
  }

  /** Taking entries from a list of distinct names keeps them distinct. */
  lemma SubDistinct(top: seq<Entry>, entries: seq<Entry>)
    requires DistinctNames(entries) && multiset(top) <= multiset(entries)
    ensures DistinctNames(top)
  {
    forall i, j | 0 <= i < j < |top| ensures top[i].name != top[j].name {
      PairCount(top, i, j);
      DistinctOccursOnce(entries, top[i]);
      assert top[i] != top[j];
      assert top[i] in multiset(entries) && top[j] in multiset(entries);
      var p :| 0 <= p < |entries| && entries[p] == top[i];
      var q :| 0 <= q < |entries| && entries[q] == top[j];
      assert p != q;
    }
  }

  /** The five top borrowers of the admin page, by number of loans, active
      and returned, over every account. */
  method TopBorrowers(accounts: seq<Account>) returns (top: seq<Entry>)
    ensures top == TopFive(Entries(Fold(NoTally, BorrowerNames(accounts))))
    ensures |top| <= TopCount && SortedByCount(top) && DistinctNames(top)
    ensures forall i :: 0 <= i < |top| ==>
              top[i].name != "" && top[i].count == multiset(BorrowerNames(accounts))[top[i].name] > 0
    ensures forall name :: name != "" && name in BorrowerNames(accounts) && (forall i :: 0 <= i < |top| ==> top[i].name != name) ==>
              |top| == TopCount && forall i :: 0 <= i < |top| ==> top[i].count >= multiset(BorrowerNames(accounts))[name]
  {
    var t := CountBorrowers(accounts);
    FoldCounts(NoTally, BorrowerNames(accounts));
    RankingOfTally(t, BorrowerNames(accounts));
    top := TopFive(Entries(t));
  }

  /** The ranking of a tally of a list of names holds the top counts of
      that list. */
  lemma RankingOfTally(t: Tally, names: seq<string>)
    requires TallyOk(t)
    requires forall name :: name != "" ==> Count(t, name) == Count(NoTally, name) + multiset(names)[name]
    ensures var top := TopFive(Entries(t));
            && |top| <= TopCount && SortedByCount(top) && DistinctNames(top)
            && (forall i :: 0 <= i < |top| ==>
                  top[i].name != "" && top[i].count == multiset(names)[top[i].name] > 0)
            && (forall name :: name != "" && name in names && (forall i :: 0 <= i < |top| ==> top[i].name != name) ==>
                  |top| == TopCount && forall i :: 0 <= i < |top| ==> top[i].count >= multiset(names)[name])
  {
    var entries := Entries(t);
    TopFiveIsTop(entries);
    EntriesDistinct(t);
    SubDistinct(TopFive(entries), entries);
    TopBorrowersCounted(entries, t, TopFive(entries), names);
  }

  /** Every entry of a tally names a set borrower with its number of loans. */
  lemma EntryCounted(t: Tally, names: seq<string>, e: Entry)
    requires TallyOk(t)
    requires forall name :: name != "" ==> Count(t, name) == multiset(names)[name]
    requires e in Entries(t)
    ensures e.name != "" && e.count == multiset(names)[e.name] > 0
  {
    var j :| 0 <= j < |Entries(t)| && Entries(t)[j] == e;
    assert t.order[j] in t.counts;
  }

  /** Every set borrower name has its entry in the tally. */
  lemma NameHasEntry(t: Tally, names: seq<string>, name: string)
    requires TallyOk(t)
    requires forall name :: name != "" ==> Count(t, name) == multiset(names)[name]
    requires name != "" && name in names
    ensures Entry(name, multiset(names)[name]) in Entries(t)
  {
    assert name in multiset(names);
    assert name in t.order;
    var j :| 0 <= j < |t.order| && t.order[j] == name;
    assert Entries(t)[j] == Entry(name, multiset(names)[name]);
  }

  lemma TopBorrowersCounted(entries: seq<Entry>, t: Tally, top: seq<Entry>, names: seq<string>)
    requires TallyOk(t) && entries == Entries(t)
    requires forall name :: name != "" ==> Count(t, name) == multiset(names)[name]
    requires multiset(top) <= multiset(entries)
    requires forall e :: e in entries && e !in top ==>
               |top| == TopCount && forall i :: 0 <= i < |top| ==> top[i].count >= e.count
    ensures forall i :: 0 <= i < |top| ==> top[i].name != "" && top[i].count == multiset(names)[top[i].name] > 0
    ensures forall name :: name != "" && name in names && (forall i :: 0 <= i < |top| ==> top[i].name != name) ==>
              |top| == TopCount && forall i :: 0 <= i < |top| ==> top[i].count >= multiset(names)[name]
  {
    forall i | 0 <= i < |top| ensures top[i].name != "" && top[i].count == multiset(names)[top[i].name] > 0 {
      assert top[i] in multiset(entries);
      EntryCounted(t, names, top[i]);
    }
    forall name | name != "" && name in names && (forall i :: 0 <= i < |top| ==> top[i].name != name)
      ensures |top| == TopCount && forall i :: 0 <= i < |top| ==> top[i].count >= multiset(names)[name]
    {
      NameHasEntry(t, names, name);
      var e := Entry(name, multiset(names)[name]);
      assert e !in top;
    }
  }
}
