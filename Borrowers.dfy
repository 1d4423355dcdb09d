/** A borrower of the library: an object mirroring one row of the Borrower
    table, with the accessors that create, load, update and delete that row. */
module Borrowers {
  import opened Common
  import opened DateParser
  import opened Storage

  /** A stored row can be loaded: parseLine unboxes the phone column into a
      primitive field, and looks the type name up in the BorrowerType table. */
  predicate Loadable(row: BorrowerRow, types: map<string, int>) {
    row.phone.Some? && row.typeName in types
  }

  /** The error parseLine raises on a row that cannot be loaded, in the order it reads the columns. */
  function LoadError(row: BorrowerRow, types: map<string, int>): Error
    requires !Loadable(row, types)
  {
    if row.phone.None? then NullPointer else NoSuchBorrowerType
  }

  /** The bids of the stored borrowers that parseLine cannot load. */
  function UnloadableBorrowers(borrowers: map<int, BorrowerRow>, types: map<string, int>): set<int> {
    set bid | bid in borrowers && !Loadable(borrowers[bid], types)
  }

  class Borrower {
    const db: Database
    const bid: int
    var password: string
    var name: string
    var address: Option<string>
    var phone: int
    var emailAddress: Option<string>
    var sinOrStNo: int
    var expiryDate: Option<Date>
    var borrowerType: BorrowerType

    /** The row of the Borrower table this object stands for. */
    function Row(): BorrowerRow
      reads this
    {
      BorrowerRow(password, name, address, Some(phone), emailAddress, sinOrStNo, expiryDate, borrowerType.name)
    }

    constructor (db: Database, bid: int, row: BorrowerRow, phone: int, borrowerType: BorrowerType)
      requires row.phone == Some(phone) && row.typeName == borrowerType.name
      ensures this.db == db && this.bid == bid && Row() == row && this.borrowerType == borrowerType
    {
      this.db := db;
      this.bid := bid;
      password := row.password;
      name := row.name;
      address := row.address;
      this.phone := phone;
      emailAddress := row.emailAddress;
      sinOrStNo := row.sinOrStNo;
      expiryDate := row.expiryDate;
      this.borrowerType := borrowerType;
    }

    /** add: stores a new borrower under the next free bid, with exactly the given fields. */
    static method Add(
      db: Database, password: string, name: string, address: Option<string>, phone: int,
      emailAddress: Option<string>, sinOrStNo: int, expiryDate: Option<Date>,
      borrowerType: BorrowerType, writeOk: bool)
      returns (r: Result<Borrower>)
      modifies db.borrowers
      ensures r.Ok? <==> writeOk
      ensures r.Err? ==> r.error == WriteFailed && db.borrowers.rows == old(db.borrowers.rows)
      ensures r.Ok? ==>
        && fresh(r.value) && r.value.db == db
        && IsNextKey(r.value.bid, old(db.borrowers.rows).Keys)
        && r.value.Row() == BorrowerRow(password, name, address, Some(phone), emailAddress, sinOrStNo, expiryDate, borrowerType.name)
        && r.value.borrowerType == borrowerType
        && db.borrowers.rows == old(db.borrowers.rows)[r.value.bid := r.value.Row()]
    {
      var bid := NextKey(db.borrowers.rows.Keys);
      if !writeOk {
        return Err(WriteFailed);
      }
      var row := BorrowerRow(password, name, address, Some(phone), emailAddress, sinOrStNo, expiryDate, borrowerType.name);
      db.borrowers.rows := db.borrowers.rows[bid := row];
      var b := new Borrower(db, bid, row, phone, borrowerType);
      r := Ok(b);
    }

    /** get: loads the borrower stored under bid, with its type read from the BorrowerType table. */
    static method Get(db: Database, bid: int) returns (r: Result<Borrower>)
      ensures bid !in db.borrowers.rows ==> r == Err(NoSuchBorrower)
      ensures bid in db.borrowers.rows && !Loadable(db.borrowers.rows[bid], db.types.rows) ==>
        r == Err(LoadError(db.borrowers.rows[bid], db.types.rows))
      ensures r.Ok? <==> bid in db.borrowers.rows && Loadable(db.borrowers.rows[bid], db.types.rows)
      ensures r.Err? <==> bid !in db.borrowers.rows || bid in UnloadableBorrowers(db.borrowers.rows, db.types.rows)
      ensures r.Ok? ==>
        var row := db.borrowers.rows[bid];
        && fresh(r.value) && r.value.db == db && r.value.bid == bid
        && r.value.Row() == row
        && r.value.borrowerType == BorrowerType(row.typeName, db.types.rows[row.typeName])
    {
      if bid !in db.borrowers.rows {
        return Err(NoSuchBorrower);
      }
      var row := db.borrowers.rows[bid];
      if !Loadable(row, db.types.rows) {
        return Err(LoadError(row, db.types.rows));
      }
      var b := new Borrower(db, bid, row, row.phone.value, BorrowerType(row.typeName, db.types.rows[row.typeName]));
      r := Ok(b);
    }

    /** delete: removes this borrower's row and no other. */
    method Delete(writeOk: bool) returns (r: Outcome)
      modifies db.borrowers
      ensures r == WriteOutcome(writeOk)
      ensures db.borrowers.rows == if writeOk then old(db.borrowers.rows) - {bid} else old(db.borrowers.rows)
    {
      r := WriteOutcome(writeOk);
      if writeOk {
        db.borrowers.rows := db.borrowers.rows - {bid};
      }
    }

    /** isValid: the library card expires on a later day than today. */
    function IsValid(today: Date): (valid: bool)
      reads this
      requires expiryDate.Some?
      ensures valid <==> Ordinal(expiryDate.value) > Ordinal(today)
    {
      AfterIsLater(expiryDate.value, today);
      After(expiryDate.value, today)
    }

    method SetPassword(password: string, writeOk: bool) returns (r: Outcome)
      modifies this, db.borrowers
      ensures r == WriteOutcome(writeOk)
      ensures Row() == if writeOk then old(Row()).(password := password) else old(Row())
      ensures borrowerType == old(borrowerType)
      ensures db.borrowers.rows ==
        if writeOk && bid in old(db.borrowers.rows)
        then old(db.borrowers.rows)[bid := old(db.borrowers.rows)[bid].(password := password)]
        else old(db.borrowers.rows)
    {
      r := WriteOutcome(writeOk);
      if writeOk {
        if bid in db.borrowers.rows {
          db.borrowers.rows := db.borrowers.rows[bid := db.borrowers.rows[bid].(password := password)];
        }
        this.password := password;
      }
    }

    method SetName(name: string, writeOk: bool) returns (r: Outcome)
      modifies this, db.borrowers
      ensures r == WriteOutcome(writeOk)
      ensures Row() == if writeOk then old(Row()).(name := name) else old(Row())
      ensures borrowerType == old(borrowerType)
      ensures db.borrowers.rows ==
        if writeOk && bid in old(db.borrowers.rows)
        then old(db.borrowers.rows)[bid := old(db.borrowers.rows)[bid].(name := name)]
        else old(db.borrowers.rows)
    {
      r := WriteOutcome(writeOk);
      if writeOk {
        if bid in db.borrowers.rows {
          db.borrowers.rows := db.borrowers.rows[bid := db.borrowers.rows[bid].(name := name)];
        }
        this.name := name;
      }
    }

    method SetAddress(address: Option<string>, writeOk: bool) returns (r: Outcome)
      modifies this, db.borrowers
      ensures r == WriteOutcome(writeOk)
      ensures Row() == if writeOk then old(Row()).(address := address) else old(Row())
      ensures borrowerType == old(borrowerType)
      ensures db.borrowers.rows ==
        if writeOk && bid in old(db.borrowers.rows)
        then old(db.borrowers.rows)[bid := old(db.borrowers.rows)[bid].(address := address)]
        else old(db.borrowers.rows)
    {
      r := WriteOutcome(writeOk);
      if writeOk {
        if bid in db.borrowers.rows {
          db.borrowers.rows := db.borrowers.rows[bid := db.borrowers.rows[bid].(address := address)];
        }
        this.address := address;
      }
    }

    method SetPhone(phone: int, writeOk: bool) returns (r: Outcome)
      modifies this, db.borrowers
      ensures r == WriteOutcome(writeOk)
      ensures Row() == if writeOk then old(Row()).(phone := Some(phone)) else old(Row())
      ensures borrowerType == old(borrowerType)
      ensures db.borrowers.rows ==
        if writeOk && bid in old(db.borrowers.rows)
        then old(db.borrowers.rows)[bid := old(db.borrowers.rows)[bid].(phone := Some(phone))]
        else old(db.borrowers.rows)
    {
      r := WriteOutcome(writeOk);
      if writeOk {
        if bid in db.borrowers.rows {
          db.borrowers.rows := db.borrowers.rows[bid := db.borrowers.rows[bid].(phone := Some(phone))];
        }
        this.phone := phone;
      }
    }

    method SetEmailAddress(emailAddress: Option<string>, writeOk: bool) returns (r: Outcome)
      modifies this, db.borrowers
      ensures r == WriteOutcome(writeOk)
      ensures Row() == if writeOk then old(Row()).(emailAddress := emailAddress) else old(Row())
      ensures borrowerType == old(borrowerType)
      ensures db.borrowers.rows ==
        if writeOk && bid in old(db.borrowers.rows)
        then old(db.borrowers.rows)[bid := old(db.borrowers.rows)[bid].(emailAddress := emailAddress)]
        else old(db.borrowers.rows)
    {
      r := WriteOutcome(writeOk);
      if writeOk {
        if bid in db.borrowers.rows {
          db.borrowers.rows := db.borrowers.rows[bid := db.borrowers.rows[bid].(emailAddress := emailAddress)];
        }
        this.emailAddress := emailAddress;
      }
    }

    method SetSinOrStNo(sinOrStNo: int, writeOk: bool) returns (r: Outcome)
      modifies this, db.borrowers
      ensures r == WriteOutcome(writeOk)
      ensures Row() == if writeOk then old(Row()).(sinOrStNo := sinOrStNo) else old(Row())
      ensures borrowerType == old(borrowerType)
      ensures db.borrowers.rows ==
        if writeOk && bid in old(db.borrowers.rows)
        then old(db.borrowers.rows)[bid := old(db.borrowers.rows)[bid].(sinOrStNo := sinOrStNo)]
        else old(db.borrowers.rows)
    {
      r := WriteOutcome(writeOk);
      if writeOk {
        if bid in db.borrowers.rows {
          db.borrowers.rows := db.borrowers.rows[bid := db.borrowers.rows[bid].(sinOrStNo := sinOrStNo)];
        }
        this.sinOrStNo := sinOrStNo;
      }
    }

    method SetExpiryDate(expiryDate: Option<Date>, writeOk: bool) returns (r: Outcome)
      modifies this, db.borrowers
      ensures r == WriteOutcome(writeOk)
      ensures Row() == if writeOk then old(Row()).(expiryDate := expiryDate) else old(Row())
      ensures borrowerType == old(borrowerType)
      ensures db.borrowers.rows ==
        if writeOk && bid in old(db.borrowers.rows)
        then old(db.borrowers.rows)[bid := old(db.borrowers.rows)[bid].(expiryDate := expiryDate)]
        else old(db.borrowers.rows)
    {
      r := WriteOutcome(writeOk);
      if writeOk {
        if bid in db.borrowers.rows {
          db.borrowers.rows := db.borrowers.rows[bid := db.borrowers.rows[bid].(expiryDate := expiryDate)];
        }
        this.expiryDate := expiryDate;
      }
    }

    /** setType: the row records the type's name; the object keeps the whole type. */
    method SetType(borrowerType: BorrowerType, writeOk: bool) returns (r: Outcome)
      modifies this, db.borrowers
      ensures r == WriteOutcome(writeOk)
      ensures Row() == if writeOk then old(Row()).(typeName := borrowerType.name) else old(Row())
      ensures this.borrowerType == if writeOk then borrowerType else old(this.borrowerType)
      ensures db.borrowers.rows ==
        if writeOk && bid in old(db.borrowers.rows)
        then old(db.borrowers.rows)[bid := old(db.borrowers.rows)[bid].(typeName := borrowerType.name)]
        else old(db.borrowers.rows)
    {
      r := WriteOutcome(writeOk);
      if writeOk {
        if bid in db.borrowers.rows {
          db.borrowers.rows := db.borrowers.rows[bid := db.borrowers.rows[bid].(typeName := borrowerType.name)];
        }
        this.borrowerType := borrowerType;
      }
    }
  }

  /** A borrower is valid exactly when the card expires some positive number of days after today. */
  lemma ValidUntilExpiry(b: Borrower, today: Date)
    requires b.expiryDate.Some?
    ensures b.IsValid(today) <==> exists n :: n > 0 && TodayPlusDays(today, n) == b.expiryDate.value
  {
    AfterIsPositiveShift(b.expiryDate.value, today);
  }
}
