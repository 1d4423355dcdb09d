/** Books and their copies: each object mirrors one row of the Book or the
    BookCopy table. A copy's status moves through "in", "out" and "on-hold" by
    checkout and return, which also record borrowings and fines. */
module Books {
  import opened Common
  import opened DateParser
  import opened Storage
  import opened Borrowers

  /** The copy numbers of book callNumber whose status is "in". */
  function AvailableCopies(copies: map<CopyKey, string>, callNumber: int): set<int> {
    set k | k in copies && k.callNumber == callNumber && copies[k] == IN :: k.copyNo
  }

  /** Writing one copy's status changes the availability of that copy alone:
      it joins its book's available copies when set to "in" and leaves them
      for any other status; other books' copies are unaffected. */
  lemma AvailableAfterStatus(copies: map<CopyKey, string>, k: CopyKey, status: string, callNumber: int)
    ensures AvailableCopies(copies[k := status], callNumber) ==
      if callNumber != k.callNumber then AvailableCopies(copies, callNumber)
      else if status == IN then AvailableCopies(copies, callNumber) + {k.copyNo}
      else AvailableCopies(copies, callNumber) - {k.copyNo}
  {
  }

  /** The keys of a list of copies, in list order. */
  function KeysOf(cs: seq<BookCopy>): (ks: seq<CopyKey>)
    ensures |ks| == |cs|
    ensures forall i :: 0 <= i < |cs| ==> ks[i] == cs[i].Key()
  {
    seq(|cs|, i requires 0 <= i < |cs| => cs[i].Key())
  }

  /** Every checked-out copy belongs to a book on record. */
  ghost predicate BooksOnRecord(copies: map<CopyKey, string>, books: map<int, BookRow>) {
    forall k :: CheckedOut(copies, k) ==> k.callNumber in books
  }

  /** Every checked-out copy has been borrowed at least once. */
  ghost predicate BorrowingsOnRecord(copies: map<CopyKey, string>, borrowings: seq<Borrowing>) {
    forall k :: CheckedOut(copies, k) ==> LastBorrowing(borrowings, k).Some?
  }

  /** A copy is overdue when it is out and today is a later day than the due
      date of its latest borrowing. */
  predicate Overdue(copies: map<CopyKey, string>, borrowings: seq<Borrowing>, today: Date, k: CopyKey) {
    && CheckedOut(copies, k)
    && LastBorrowing(borrowings, k).Some?
    && After(today, LastBorrowing(borrowings, k).value.inDate)
  }

  /** Appending the next key of a strictly increasing list to a sorted selection
      of the keys before it keeps the selection strictly increasing. */
  lemma SortedAppend(oks: seq<CopyKey>, ks: seq<CopyKey>, i: int)
    requires StrictlyIncreasing(oks) && StrictlyIncreasing(ks) && 0 <= i < |ks|
    requires forall k :: k in oks ==> k in ks[..i]
    ensures StrictlyIncreasing(oks + [ks[i]])
  {
    forall a | 0 <= a < |oks|
      ensures KeyBefore(oks[a], ks[i])
    {
      assert oks[a] in ks[..i];
    }
  }

  class Book {
    const db: Database
    const callNumber: int
    var isbn: int
    var title: string
    var mainAuthor: string
    var publisher: Option<string>
    var year: int

    /** The row of the Book table this object stands for. */
    function Row(): BookRow
      reads this
    {
      BookRow(isbn, title, mainAuthor, publisher, year)
    }

    constructor (db: Database, callNumber: int, row: BookRow)
      ensures this.db == db && this.callNumber == callNumber && Row() == row
    {
      this.db := db;
      this.callNumber := callNumber;
      isbn := row.isbn;
      title := row.title;
      mainAuthor := row.mainAuthor;
      publisher := row.publisher;
      year := row.year;
    }

    /** generate: a new book under the next free callNumber, with placeholder fields. */
    static method Generate(db: Database, writeOk: bool) returns (r: Result<Book>)
      modifies db.books
      ensures r.Ok? <==> writeOk
      ensures r.Err? ==> r.error == WriteFailed && db.books.rows == old(db.books.rows)
      ensures r.Ok? ==>
        && fresh(r.value) && r.value.db == db
        && IsNextKey(r.value.callNumber, old(db.books.rows).Keys)
        && r.value.Row() == BookRow(0, "a", "a", Some("a"), 0)
        && db.books.rows == old(db.books.rows)[r.value.callNumber := r.value.Row()]
    {
      var callNumber := NextKey(db.books.rows.Keys);
      r := Add(db, callNumber, BookRow(0, "a", "a", Some("a"), 0), writeOk);
    }

    /** add: inserts a book under the given callNumber; the key must be unused. */
    static method Add(db: Database, callNumber: int, row: BookRow, writeOk: bool) returns (r: Result<Book>)
      modifies db.books
      ensures r.Ok? <==> writeOk && callNumber !in old(db.books.rows)
      ensures r.Err? ==> r.error == WriteFailed && db.books.rows == old(db.books.rows)
      ensures r.Ok? ==>
        && fresh(r.value) && r.value.db == db && r.value.callNumber == callNumber
        && r.value.Row() == row
        && db.books.rows == old(db.books.rows)[callNumber := row]
    {
      if !writeOk || callNumber in db.books.rows {
        return Err(WriteFailed);
      }
      db.books.rows := db.books.rows[callNumber := row];
      var b := new Book(db, callNumber, row);
      r := Ok(b);
    }

    /** get: loads the book stored under callNumber. */
    static method Get(db: Database, callNumber: int) returns (r: Result<Book>)
      ensures r.Ok? <==> callNumber in db.books.rows
      ensures r.Err? ==> r.error == NoSuchBook
      ensures r.Ok? ==>
        && fresh(r.value) && r.value.db == db && r.value.callNumber == callNumber
        && r.value.Row() == db.books.rows[callNumber]
    {
      if callNumber !in db.books.rows {
        return Err(NoSuchBook);
      }
      var b := new Book(db, callNumber, db.books.rows[callNumber]);
      r := Ok(b);
    }

    /** delete: removes this book's row and no other. */
    method Delete(writeOk: bool) returns (r: Outcome)
      modifies db.books
      ensures r == WriteOutcome(writeOk)
      ensures db.books.rows == if writeOk then old(db.books.rows) - {callNumber} else old(db.books.rows)
    {
      r := WriteOutcome(writeOk);
      if writeOk {
        db.books.rows := db.books.rows - {callNumber};
      }
    }

    /** findAvailableCopy: some copy of this book whose status is "in", loaded afresh. */
    method FindAvailableCopy() returns (r: Result<BookCopy>)
      ensures AvailableCopies(db.copies.rows, callNumber) == {} ==> r == Err(NoAvailableCopies)
      ensures AvailableCopies(db.copies.rows, callNumber) != {} && callNumber !in db.books.rows ==> r == Err(NoSuchBook)
      ensures r.Ok? <==> AvailableCopies(db.copies.rows, callNumber) != {} && callNumber in db.books.rows
      ensures r.Ok? ==>
        && fresh(r.value) && r.value.db == db
        && r.value.Key().callNumber == callNumber
        && r.value.copyNo in AvailableCopies(db.copies.rows, callNumber)
        && r.value.status == IN
        && r.value.book.Row() == db.books.rows[callNumber]
    {
      var available := AvailableCopies(db.copies.rows, callNumber);
      if available == {} {
        return Err(NoAvailableCopies);
      }
      ghost var some := Pick(available);
      var copyNo :| copyNo in available;
      r := BookCopy.Get(db, this, copyNo);
    }

    method SetIsbn(isbn: int, writeOk: bool) returns (r: Outcome)
      modifies this, db.books
      ensures r == WriteOutcome(writeOk)
      ensures Row() == if writeOk then old(Row()).(isbn := isbn) else old(Row())
      ensures db.books.rows ==
        if writeOk && callNumber in old(db.books.rows)
        then old(db.books.rows)[callNumber := old(db.books.rows)[callNumber].(isbn := isbn)]
        else old(db.books.rows)
    {
      r := WriteOutcome(writeOk);
      if writeOk {
        if callNumber in db.books.rows {
          db.books.rows := db.books.rows[callNumber := db.books.rows[callNumber].(isbn := isbn)];
        }
        this.isbn := isbn;
      }
    }

    method SetTitle(title: string, writeOk: bool) returns (r: Outcome)
      modifies this, db.books
      ensures r == WriteOutcome(writeOk)
      ensures Row() == if writeOk then old(Row()).(title := title) else old(Row())
      ensures db.books.rows ==
        if writeOk && callNumber in old(db.books.rows)
        then old(db.books.rows)[callNumber := old(db.books.rows)[callNumber].(title := title)]
        else old(db.books.rows)
    {
      r := WriteOutcome(writeOk);
      if writeOk {
        if callNumber in db.books.rows {
          db.books.rows := db.books.rows[callNumber := db.books.rows[callNumber].(title := title)];
        }
        this.title := title;
      }
    }

    method SetMainAuthor(mainAuthor: string, writeOk: bool) returns (r: Outcome)
      modifies this, db.books
      ensures r == WriteOutcome(writeOk)
      ensures Row() == if writeOk then old(Row()).(mainAuthor := mainAuthor) else old(Row())
      ensures db.books.rows ==
        if writeOk && callNumber in old(db.books.rows)
        then old(db.books.rows)[callNumber := old(db.books.rows)[callNumber].(mainAuthor := mainAuthor)]
        else old(db.books.rows)
    {
      r := WriteOutcome(writeOk);
      if writeOk {
        if callNumber in db.books.rows {
          db.books.rows := db.books.rows[callNumber := db.books.rows[callNumber].(mainAuthor := mainAuthor)];
        }
        this.mainAuthor := mainAuthor;
      }
    }

    method SetPublisher(publisher: Option<string>, writeOk: bool) returns (r: Outcome)
      modifies this, db.books
      ensures r == WriteOutcome(writeOk)
      ensures Row() == if writeOk then old(Row()).(publisher := publisher) else old(Row())
      ensures db.books.rows ==
        if writeOk && callNumber in old(db.books.rows)
        then old(db.books.rows)[callNumber := old(db.books.rows)[callNumber].(publisher := publisher)]
        else old(db.books.rows)
    {
      r := WriteOutcome(writeOk);
      if writeOk {
        if callNumber in db.books.rows {
          db.books.rows := db.books.rows[callNumber := db.books.rows[callNumber].(publisher := publisher)];
        }
        this.publisher := publisher;
      }
    }

    method SetYear(year: int, writeOk: bool) returns (r: Outcome)
      modifies this, db.books
      ensures r == WriteOutcome(writeOk)
      ensures Row() == if writeOk then old(Row()).(year := year) else old(Row())
      ensures db.books.rows ==
        if writeOk && callNumber in old(db.books.rows)
        then old(db.books.rows)[callNumber := old(db.books.rows)[callNumber].(year := year)]
        else old(db.books.rows)
    {
      r := WriteOutcome(writeOk);
      if writeOk {
        if callNumber in db.books.rows {
          db.books.rows := db.books.rows[callNumber := db.books.rows[callNumber].(year := year)];
        }
        this.year := year;
      }
    }
  }

  class BookCopy {
    const db: Database
    const book: Book
    const copyNo: int
    var status: string

    /** The key of this copy's row in the BookCopy table. */
    function Key(): CopyKey {
      CopyKey(book.callNumber, copyNo)
    }

    constructor (db: Database, book: Book, copyNo: int, status: string)
      ensures this.db == db && this.book == book && this.copyNo == copyNo && this.status == status
    {
      this.db := db;
      this.book := book;
      this.copyNo := copyNo;
      this.status := status;
    }

    /** add: a new copy of book under that book's next free copy number. */
    static method Add(db: Database, book: Book, status: string, writeOk: bool) returns (r: Result<BookCopy>)
      modifies db.copies
      ensures r.Ok? <==> writeOk
      ensures r.Err? ==> r.error == WriteFailed && db.copies.rows == old(db.copies.rows)
      ensures r.Ok? ==>
        && fresh(r.value) && r.value.db == db && r.value.book == book && r.value.status == status
        && IsNextKey(r.value.copyNo, CopyNumbers(old(db.copies.rows), book.callNumber))
        && r.value.Key() !in old(db.copies.rows)
        && db.copies.rows == old(db.copies.rows)[r.value.Key() := status]
    {
      var copyNo := NextKey(CopyNumbers(db.copies.rows, book.callNumber));
      if !writeOk {
        return Err(WriteFailed);
      }
      var key := CopyKey(book.callNumber, copyNo);
      if key in db.copies.rows {
        RecordedCopyNumber(db.copies.rows, key);
        assert false;
      }
      db.copies.rows := db.copies.rows[key := status];
      var c := new BookCopy(db, book, copyNo, status);
      r := Ok(c);
    }

    /** get: loads copy copyNo of book; parseLine then loads the book itself afresh. */
    static method Get(db: Database, book: Book, copyNo: int) returns (r: Result<BookCopy>)
      ensures CopyKey(book.callNumber, copyNo) !in db.copies.rows ==> r == Err(NoSuchCopy)
      ensures CopyKey(book.callNumber, copyNo) in db.copies.rows && book.callNumber !in db.books.rows ==> r == Err(NoSuchBook)
      ensures r.Ok? <==> CopyKey(book.callNumber, copyNo) in db.copies.rows && book.callNumber in db.books.rows
      ensures r.Ok? ==>
        && fresh(r.value) && fresh(r.value.book) && r.value.db == db
        && r.value.Key() == CopyKey(book.callNumber, copyNo)
        && r.value.status == db.copies.rows[r.value.Key()]
        && r.value.book.Row() == db.books.rows[book.callNumber]
    {
      var key := CopyKey(book.callNumber, copyNo);
      if key !in db.copies.rows {
        return Err(NoSuchCopy);
      }
      var loaded := Book.Get(db, book.callNumber);
      if loaded.Err? {
        return Err(loaded.error);
      }
      var c := new BookCopy(db, loaded.value, copyNo, db.copies.rows[key]);
      r := Ok(c);
    }

    /** getCheckedOut: every copy whose status is "out", ordered by (callNumber, copyNo). */
    static method GetCheckedOut(db: Database) returns (r: Result<seq<BookCopy>>)
      ensures r.Ok? <==> BooksOnRecord(db.copies.rows, db.books.rows)
      ensures r.Err? ==> r.error == NoSuchBook
      ensures r.Ok? ==>
        && StrictlyIncreasing(KeysOf(r.value))
        && (forall k :: k in KeysOf(r.value) <==> CheckedOut(db.copies.rows, k))
        && (forall c :: c in r.value ==> fresh(c) && c.db == db && c.status == OUT)
        && (forall c :: c in r.value ==>
              fresh(c.book) && c.Key().callNumber in db.books.rows && c.book.Row() == db.books.rows[c.Key().callNumber])
    {
      var keys := SelectCheckedOut(db.copies.rows);
      var list: seq<BookCopy> := [];
      var i := 0;
      while i < |keys|
        invariant 0 <= i <= |keys|
        invariant KeysOf(list) == keys[..i]
        invariant forall k :: k in keys[..i] ==> k.callNumber in db.books.rows
        invariant forall c :: c in list ==> fresh(c) && c.db == db && c.status == OUT
        invariant forall c :: c in list ==>
          fresh(c.book) && c.Key().callNumber in db.books.rows && c.book.Row() == db.books.rows[c.Key().callNumber]
      {
        var loaded := Book.Get(db, keys[i].callNumber);
        if loaded.Err? {
          assert CheckedOut(db.copies.rows, keys[i]);
          return Err(loaded.error);
        }
        var c := new BookCopy(db, loaded.value, keys[i].copyNo, OUT);
        list := list + [c];
        assert keys[..i + 1] == keys[..i] + [keys[i]];
        i := i + 1;
      }
      assert keys[..i] == keys;
      r := Ok(list);
    }

    /** getOverdue: the checked-out copies, in the same order, whose latest
        borrowing fell due on an earlier day than today. */
    static method GetOverdue(db: Database, today: Date) returns (r: Result<seq<BookCopy>>)
      ensures r.Ok? <==> BooksOnRecord(db.copies.rows, db.books.rows) && BorrowingsOnRecord(db.copies.rows, db.borrowings.rows)
      ensures r.Err? ==> r.error == if BooksOnRecord(db.copies.rows, db.books.rows) then NoBorrowingRecord else NoSuchBook
      ensures r.Ok? ==>
        && StrictlyIncreasing(KeysOf(r.value))
        && (forall k :: k in KeysOf(r.value) <==> Overdue(db.copies.rows, db.borrowings.rows, today, k))
        && (forall c :: c in r.value ==> fresh(c) && c.db == db && c.status == OUT)
        && (forall c :: c in r.value ==>
              fresh(c.book) && c.Key().callNumber in db.books.rows && c.book.Row() == db.books.rows[c.Key().callNumber])
    {
      var out := GetCheckedOut(db);
      if out.Err? {
        return Err(out.error);
      }
      ghost var ks := KeysOf(out.value);
      ghost var oks: seq<CopyKey> := [];
      var overdue: seq<BookCopy> := [];
      var i := 0;
      while i < |out.value|
        invariant 0 <= i <= |out.value|
        invariant KeysOf(overdue) == oks
        invariant forall k :: k in ks[..i] ==> LastBorrowing(db.borrowings.rows, k).Some?
        invariant forall k :: k in oks <==> k in ks[..i] && Overdue(db.copies.rows, db.borrowings.rows, today, k)
        invariant StrictlyIncreasing(oks)
        invariant forall c :: c in overdue ==> c in out.value
        invariant forall c :: c in out.value ==> c.status == OUT
        invariant forall c :: c in out.value ==>
          c.Key().callNumber in db.books.rows && c.book.Row() == db.books.rows[c.Key().callNumber]
      {
        var c := out.value[i];
        assert c in out.value;
        assert ks[..i + 1] == ks[..i] + [c.Key()];
        var last := LastBorrowing(db.borrowings.rows, c.Key());
        if last.None? {
          assert CheckedOut(db.copies.rows, ks[i]);
          return Err(NoBorrowingRecord);
        }
        if After(today, last.value.inDate) {
          SortedAppend(oks, ks, i);
          oks := oks + [c.Key()];
          overdue := overdue + [c];
        }
        i := i + 1;
      }
      assert ks[..i] == ks;
      r := Ok(overdue);
    }

    /** delete: removes this copy's row and no other. */
    method Delete(writeOk: bool) returns (r: Outcome)
      modifies db.copies
      ensures r == WriteOutcome(writeOk)
      ensures db.copies.rows == if writeOk then old(db.copies.rows) - {Key()} else old(db.copies.rows)
    {
      r := WriteOutcome(writeOk);
      if writeOk {
        db.copies.rows := db.copies.rows - {Key()};
      }
    }

    /** setStatus: the stored status and this object's status change together,
        and only when the write succeeds. */
    method SetStatus(status: string, writeOk: bool) returns (r: Outcome)
      modifies this, db.copies
      ensures r == WriteOutcome(writeOk)
      ensures this.status == if writeOk then status else old(this.status)
      ensures db.copies.rows ==
        if writeOk && Key() in old(db.copies.rows) then old(db.copies.rows)[Key() := status] else old(db.copies.rows)
    {
      r := WriteOutcome(writeOk);
      if writeOk {
        if Key() in db.copies.rows {
          db.copies.rows := db.copies.rows[Key() := status];
        }
        this.status := status;
      }
    }

    /** checkout: records a borrowing of this copy by borrower, due after the
        borrower type's time limit, then marks the copy "out". The clerk only
        checks out an available copy for a borrower whose card is valid. */
    method Checkout(borrower: Borrower, today: Date, recordOk: bool, statusOk: bool) returns (r: Result<Borrowing>)
      requires borrower.expiryDate.Some? && borrower.IsValid(today)
      requires Key() in db.copies.rows && db.copies.rows[Key()] == IN
      modifies this, db.borrowings, db.copies
      ensures r.Ok? <==> recordOk && statusOk
      ensures r.Err? ==> r.error == WriteFailed
      ensures !recordOk ==> db.borrowings.rows == old(db.borrowings.rows)
      ensures recordOk ==> |db.borrowings.rows| == |old(db.borrowings.rows)| + 1
      ensures recordOk ==>
        var record := db.borrowings.rows[|old(db.borrowings.rows)|];
        && db.borrowings.rows == old(db.borrowings.rows) + [record]
        && IsNextKey(record.borid, BorrowingIds(old(db.borrowings.rows)))
        && record.bid == borrower.bid && record.copy == Key()
        && record.outDate == today
        && record.inDate == TodayPlusDays(today, borrower.borrowerType.bookTimeLimit)
        && (r.Ok? ==> r.value == record)
      ensures recordOk && statusOk ==> status == OUT && db.copies.rows == old(db.copies.rows)[Key() := OUT]
      ensures !(recordOk && statusOk) ==> status == old(status) && db.copies.rows == old(db.copies.rows)
    {
      var outDate := today;
      var dueDate := TodayPlusDays(today, borrower.borrowerType.bookTimeLimit);
      var record := db.borrowings.Add(borrower.bid, Key(), outDate, dueDate, recordOk);
      if record.Err? {
        return Err(record.error);
      }
      var written := SetStatus(OUT, statusOk);
      if written.Fail? {
        return Err(written.error);
      }
      r := record;
    }

    /** The latest borrowing recorded for this copy. */
    function LastRecord(): Option<Borrowing>
      reads db.borrowings
    {
      LastBorrowing(db.borrowings.rows, Key())
    }

    /** doReturn: fines the latest borrowing of this copy when it is returned
        late, then puts the copy on hold if its book has a hold request and
        back on the shelf otherwise. */
    method DoReturn(today: Date, feePerDay: int, fineOk: bool, statusOk: bool) returns (r: Outcome)
      modifies this, db.fines, db.copies
      ensures LastRecord().None? ==>
        && r == Fail(NoBorrowingRecord)
        && db.fines.rows == old(db.fines.rows) && status == old(status) && db.copies.rows == old(db.copies.rows)
      ensures LastRecord().Some? ==>
        var record := LastRecord().value;
        var daysLate := DaysBetween(today, record.inDate);
        && (daysLate <= 0 ==> db.fines.rows == old(db.fines.rows))
        && (daysLate > 0 && fineOk ==> |db.fines.rows| == |old(db.fines.rows)| + 1)
        && (daysLate > 0 && !fineOk ==>
              && r == Fail(WriteFailed)
              && db.fines.rows == old(db.fines.rows) && status == old(status) && db.copies.rows == old(db.copies.rows))
        && (daysLate > 0 && fineOk ==>
              var fine := db.fines.rows[|old(db.fines.rows)|];
              && db.fines.rows == old(db.fines.rows) + [fine]
              && IsNextKey(fine.fid, FineIds(old(db.fines.rows)))
              && fine == Fine(fine.fid, feePerDay * daysLate, today, None, record.borid))
        && (daysLate <= 0 || fineOk ==>
              var newStatus := if HasHold(db.holds.rows, book.callNumber) then ON_HOLD else IN;
              && r == WriteOutcome(statusOk)
              && status == (if statusOk then newStatus else old(status))
              && db.copies.rows ==
                   if statusOk && Key() in old(db.copies.rows) then old(db.copies.rows)[Key() := newStatus]
                   else old(db.copies.rows))
      ensures |db.fines.rows| != |old(db.fines.rows)| ==>
        LastRecord().Some? && After(today, LastRecord().value.inDate)
      ensures r.Pass? ==> status == IN || status == ON_HOLD
    {
      var last := LastBorrowing(db.borrowings.rows, Key());
      if last.None? {
        return Fail(NoBorrowingRecord);
      }
      var record := last.value;
      var daysLate := DaysBetween(today, record.inDate);
      if daysLate > 0 {
        PositiveDaysBetweenIsLater(today, record.inDate);
        var fine := db.fines.Add(feePerDay * daysLate, today, None, record.borid, fineOk);
        if fine.Err? {
          return Fail(fine.error);
        }
      }
      if HasHold(db.holds.rows, book.callNumber) {
        r := SetStatus(ON_HOLD, statusOk);
      } else {
        r := SetStatus(IN, statusOk);
      }
    }
  }
}
