/** Hold requests: a borrower asks for a book; returning a copy of a book with
    a hold request puts the copy on hold instead of back on the shelf. */
module Records {
  import opened Common
  import opened DateParser
  import opened Storage
  import opened Borrowers
  import opened Books

  class HoldRequest {
    const db: Database
    const hid: int
    var borrower: Borrower
    var book: Book
    var issuedDate: Date

    /** The row of the HoldRequest table this object stands for. */
    function Row(): HoldRow
      reads this
    {
      HoldRow(borrower.bid, book.callNumber, issuedDate)
    }

    constructor (db: Database, hid: int, borrower: Borrower, book: Book, issuedDate: Date)
      ensures this.db == db && this.hid == hid
      ensures this.borrower == borrower && this.book == book && this.issuedDate == issuedDate
    {
      this.db := db;
      this.hid := hid;
      this.borrower := borrower;
      this.book := book;
      this.issuedDate := issuedDate;
    }

    /** generate: a new hold request under the next free hid, naming the first
        borrower and the first book listed and issued at the epoch. Listing the
        borrowers loads every one of them, so one that cannot be loaded makes it
        fail; an empty table has no first entry. Which entry comes first is the
        database's storage order, which the model leaves open. */
    static method Generate(db: Database, writeOk: bool) returns (r: Result<HoldRequest>)
      modifies db.holds
      ensures UnloadableBorrowers(db.borrowers.rows, db.types.rows) != {} ==>
        r.Err? && (r.error == NullPointer || r.error == NoSuchBorrowerType)
      ensures
        (UnloadableBorrowers(db.borrowers.rows, db.types.rows) == {} &&
         (db.borrowers.rows == map[] || db.books.rows == map[]))
        ==> r == Err(IndexOutOfBounds)
      ensures r.Ok? <==>
        && UnloadableBorrowers(db.borrowers.rows, db.types.rows) == {}
        && db.borrowers.rows != map[] && db.books.rows != map[]
        && writeOk
      ensures r.Err? ==> db.holds.rows == old(db.holds.rows)
      ensures r.Ok? ==>
        && fresh(r.value) && r.value.db == db
        && IsNextKey(r.value.hid, old(db.holds.rows).Keys)
        && r.value.borrower.bid in db.borrowers.rows
        && r.value.borrower.Row() == db.borrowers.rows[r.value.borrower.bid]
        && r.value.book.callNumber in db.books.rows
        && r.value.book.Row() == db.books.rows[r.value.book.callNumber]
        && r.value.issuedDate == EPOCH
        && db.holds.rows == old(db.holds.rows)[r.value.hid := r.value.Row()]
    {
      var hid := NextKey(db.holds.rows.Keys);
      var bad := UnloadableBorrowers(db.borrowers.rows, db.types.rows);
      if bad != {} {
        ghost var someBad := Pick(bad);
        var bid :| bid in bad;
        return Err(LoadError(db.borrowers.rows[bid], db.types.rows));
      }
      if db.borrowers.rows == map[] {
        return Err(IndexOutOfBounds);
      }
      ghost var someBid := Pick(db.borrowers.rows.Keys);
      var bid :| bid in db.borrowers.rows;
      var borrower := Borrower.Get(db, bid);
      if borrower.Err? {
        assert false;
      }
      if db.books.rows == map[] {
        return Err(IndexOutOfBounds);
      }
      ghost var someCallNumber := Pick(db.books.rows.Keys);
      var callNumber :| callNumber in db.books.rows;
      var book := Book.Get(db, callNumber);
      if book.Err? {
        assert false;
      }
      r := Add(db, hid, borrower.value, book.value, EPOCH, writeOk);
    }

    /** add: inserts a hold request under the given hid; the key must be unused. */
    static method Add(db: Database, hid: int, borrower: Borrower, book: Book, issuedDate: Date, writeOk: bool)
      returns (r: Result<HoldRequest>)
      modifies db.holds
      ensures r.Ok? <==> writeOk && hid !in old(db.holds.rows)
      ensures r.Err? ==> r.error == WriteFailed && db.holds.rows == old(db.holds.rows)
      ensures r.Ok? ==>
        && fresh(r.value) && r.value.db == db && r.value.hid == hid
        && r.value.borrower == borrower && r.value.book == book && r.value.issuedDate == issuedDate
        && db.holds.rows == old(db.holds.rows)[hid := HoldRow(borrower.bid, book.callNumber, issuedDate)]
    {
      if !writeOk || hid in db.holds.rows {
        return Err(WriteFailed);
      }
      db.holds.rows := db.holds.rows[hid := HoldRow(borrower.bid, book.callNumber, issuedDate)];
      var h := new HoldRequest(db, hid, borrower, book, issuedDate);
      r := Ok(h);
    }

    /** get: loads the hold request stored under hid, then its borrower, then its book. */
    static method Get(db: Database, hid: int) returns (r: Result<HoldRequest>)
      ensures hid !in db.holds.rows ==> r == Err(NoSuchHoldRequest)
      ensures hid in db.holds.rows && db.holds.rows[hid].bid !in db.borrowers.rows ==> r == Err(NoSuchBorrower)
      ensures
        (hid in db.holds.rows && db.holds.rows[hid].bid in db.borrowers.rows &&
         !Loadable(db.borrowers.rows[db.holds.rows[hid].bid], db.types.rows))
        ==> r == Err(LoadError(db.borrowers.rows[db.holds.rows[hid].bid], db.types.rows))
      ensures
        (hid in db.holds.rows && db.holds.rows[hid].bid in db.borrowers.rows &&
         Loadable(db.borrowers.rows[db.holds.rows[hid].bid], db.types.rows) &&
         db.holds.rows[hid].callNumber !in db.books.rows)
        ==> r == Err(NoSuchBook)
      ensures r.Ok? <==>
        && hid in db.holds.rows
        && db.holds.rows[hid].bid in db.borrowers.rows
        && Loadable(db.borrowers.rows[db.holds.rows[hid].bid], db.types.rows)
        && db.holds.rows[hid].callNumber in db.books.rows
      ensures r.Ok? ==>
        var row := db.holds.rows[hid];
        && fresh(r.value) && r.value.db == db && r.value.hid == hid
        && r.value.Row() == row
        && r.value.borrower.Row() == db.borrowers.rows[row.bid]
        && r.value.book.Row() == db.books.rows[row.callNumber]
    {
      if hid !in db.holds.rows {
        return Err(NoSuchHoldRequest);
      }
      var row := db.holds.rows[hid];
      var borrower := Borrower.Get(db, row.bid);
      if borrower.Err? {
        return Err(borrower.error);
      }
      var book := Book.Get(db, row.callNumber);
      if book.Err? {
        return Err(book.error);
      }
      var h := new HoldRequest(db, hid, borrower.value, book.value, row.issuedDate);
      r := Ok(h);
    }

    /** delete: removes this hold request's row and no other. */
    method Delete(writeOk: bool) returns (r: Outcome)
      modifies db.holds
      ensures r == WriteOutcome(writeOk)
      ensures db.holds.rows == if writeOk then old(db.holds.rows) - {hid} else old(db.holds.rows)
    {
      r := WriteOutcome(writeOk);
      if writeOk {
        db.holds.rows := db.holds.rows - {hid};
      }
    }

    method SetBid(borrower: Borrower, writeOk: bool) returns (r: Outcome)
      modifies this, db.holds
      ensures r == WriteOutcome(writeOk)
      ensures this.borrower == if writeOk then borrower else old(this.borrower)
      ensures book == old(book) && issuedDate == old(issuedDate)
      ensures db.holds.rows ==
        if writeOk && hid in old(db.holds.rows)
        then old(db.holds.rows)[hid := old(db.holds.rows)[hid].(bid := borrower.bid)]
        else old(db.holds.rows)
    {
      r := WriteOutcome(writeOk);
      if writeOk {
        if hid in db.holds.rows {
          db.holds.rows := db.holds.rows[hid := db.holds.rows[hid].(bid := borrower.bid)];
        }
        this.borrower := borrower;
      }
    }

    method SetCallNumber(book: Book, writeOk: bool) returns (r: Outcome)
      modifies this, db.holds
      ensures r == WriteOutcome(writeOk)
      ensures this.book == if writeOk then book else old(this.book)
      ensures borrower == old(borrower) && issuedDate == old(issuedDate)
      ensures db.holds.rows ==
        if writeOk && hid in old(db.holds.rows)
        then old(db.holds.rows)[hid := old(db.holds.rows)[hid].(callNumber := book.callNumber)]
        else old(db.holds.rows)
    {
      r := WriteOutcome(writeOk);
      if writeOk {
        if hid in db.holds.rows {
          db.holds.rows := db.holds.rows[hid := db.holds.rows[hid].(callNumber := book.callNumber)];
        }
        this.book := book;
      }
    }

    method SetIssuedDate(issuedDate: Date, writeOk: bool) returns (r: Outcome)
      modifies this, db.holds
      ensures r == WriteOutcome(writeOk)
      ensures Row() == if writeOk then old(Row()).(issuedDate := issuedDate) else old(Row())
      ensures borrower == old(borrower) && book == old(book)
      ensures db.holds.rows ==
        if writeOk && hid in old(db.holds.rows)
        then old(db.holds.rows)[hid := old(db.holds.rows)[hid].(issuedDate := issuedDate)]
        else old(db.holds.rows)
    {
      r := WriteOutcome(writeOk);
      if writeOk {
        if hid in db.holds.rows {
          db.holds.rows := db.holds.rows[hid := db.holds.rows[hid].(issuedDate := issuedDate)];
        }
        this.issuedDate := issuedDate;
      }
    }
  }

  /** A stored hold request on a book is what makes a returned copy of it go on hold. */
  lemma HoldMakesHasHold(holds: map<int, HoldRow>, hid: int, row: HoldRow)
    ensures HasHold(holds[hid := row], row.callNumber)
  {
    assert hid in holds[hid := row] && holds[hid := row][hid].callNumber == row.callNumber;
  }

  /** Deleting the only hold request on a book clears its hold. */
  lemma DeleteLastHold(holds: map<int, HoldRow>, hid: int, callNumber: int)
    requires forall h :: h in holds && h != hid ==> holds[h].callNumber != callNumber
    ensures !HasHold(holds - {hid}, callNumber)
  {
  }
}
