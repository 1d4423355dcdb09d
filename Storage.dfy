/** The database the accessors talk to, as in-memory tables: one class per
    table of the schema, holding its rows keyed by the table's primary key
    (Borrowing and Fine keep their rows in insertion order). The queries the
    accessors hand to the database (ordering, the largest key, the latest borrowing of a
    copy, whether a book has a hold) are functions and methods over those rows. */
module Storage {
  import opened Common
  import opened DateParser

  /** A row of the Book table, keyed by callNumber. A NULL publisher is None. */
  datatype BookRow = BookRow(isbn: int, title: string, mainAuthor: string, publisher: Option<string>, year: int)

  /** The key of the BookCopy table. */
  datatype CopyKey = CopyKey(callNumber: int, copyNo: int)

  /** A borrower type and the number of days a borrower of that type may keep a book. */
  datatype BorrowerType = BorrowerType(name: string, bookTimeLimit: int)

  /** A row of the Borrower table, keyed by bid; the type column names a BorrowerType row. */
  datatype BorrowerRow = BorrowerRow(
    password: string,
    name: string,
    address: Option<string>,
    phone: Option<int>,
    emailAddress: Option<string>,
    sinOrStNo: int,
    expiryDate: Option<Date>,
    typeName: string)

  /** A row of the HoldRequest table, keyed by hid. */
  datatype HoldRow = HoldRow(bid: int, callNumber: int, issuedDate: Date)

  /** A row of the Borrowing table: copy `copy` lent to borrower `bid` on outDate, due back on inDate. */
  datatype Borrowing = Borrowing(borid: int, bid: int, copy: CopyKey, outDate: Date, inDate: Date)

  /** A row of the Fine table; an unpaid fine has no paidDate. */
  datatype Fine = Fine(fid: int, amount: int, issuedDate: Date, paidDate: Option<Date>, borid: int)

  /** The values the status column of BookCopy takes. */
  const IN: string := "in"
  const OUT: string := "out"
  const ON_HOLD: string := "on-hold"

  class BookTable {
    var rows: map<int, BookRow>
    constructor ()
      ensures rows == map[]
    {
      rows := map[];
    }
  }

  /** The BookCopy table: the status of each copy. */
  class CopyTable {
    var rows: map<CopyKey, string>
    constructor ()
      ensures rows == map[]
    {
      rows := map[];
    }
  }

  /** The BorrowerType table: the book time limit of each type name. */
  class TypeTable {
    var rows: map<string, int>
    constructor ()
      ensures rows == map[]
    {
      rows := map[];
    }
  }

  class BorrowerTable {
    var rows: map<int, BorrowerRow>
    constructor ()
      ensures rows == map[]
    {
      rows := map[];
    }
  }

  class HoldTable {
    var rows: map<int, HoldRow>
    constructor ()
      ensures rows == map[]
    {
      rows := map[];
    }
  }

  /** The borrowing ids in use. */
  function BorrowingIds(rows: seq<Borrowing>): set<int> {
    set b | b in rows :: b.borid
  }

  /** The fine ids in use. */
  function FineIds(rows: seq<Fine>): set<int> {
    set f | f in rows :: f.fid
  }

  class BorrowingTable {
    var rows: seq<Borrowing>
    constructor ()
      ensures rows == []
    {
      rows := [];
    }

    /** Borrowing.add: records a new borrowing under the next free borid. */
    method Add(bid: int, copy: CopyKey, outDate: Date, inDate: Date, writeOk: bool) returns (r: Result<Borrowing>)
      modifies this
      ensures r.Ok? <==> writeOk
      ensures r.Err? ==> r.error == WriteFailed && rows == old(rows)
      ensures r.Ok? ==>
        && rows == old(rows) + [r.value]
        && IsNextKey(r.value.borid, BorrowingIds(old(rows)))
        && r.value == Borrowing(r.value.borid, bid, copy, outDate, inDate)
    {
      var borid := NextKey(BorrowingIds(rows));
      if !writeOk {
        return Err(WriteFailed);
      }
      var record := Borrowing(borid, bid, copy, outDate, inDate);
      rows := rows + [record];
      r := Ok(record);
    }
  }

  class FineTable {
    var rows: seq<Fine>
    constructor ()
      ensures rows == []
    {
      rows := [];
    }

    /** Fine.add: records a new fine under the next free fid. */
    method Add(amount: int, issuedDate: Date, paidDate: Option<Date>, borid: int, writeOk: bool) returns (r: Result<Fine>)
      modifies this
      ensures r.Ok? <==> writeOk
      ensures r.Err? ==> r.error == WriteFailed && rows == old(rows)
      ensures r.Ok? ==>
        && rows == old(rows) + [r.value]
        && IsNextKey(r.value.fid, FineIds(old(rows)))
        && r.value == Fine(r.value.fid, amount, issuedDate, paidDate, borid)
    {
      var fid := NextKey(FineIds(rows));
      if !writeOk {
        return Err(WriteFailed);
      }
      var fine := Fine(fid, amount, issuedDate, paidDate, borid);
      rows := rows + [fine];
      r := Ok(fine);
    }
  }

  /** The whole schema; each accessor reads and writes the tables it names. */
  class Database {
    const books: BookTable
    const copies: CopyTable
    const types: TypeTable
    const borrowers: BorrowerTable
    const holds: HoldTable
    const borrowings: BorrowingTable
    const fines: FineTable

    constructor ()
      ensures fresh(books) && fresh(copies) && fresh(types) && fresh(borrowers)
      ensures fresh(holds) && fresh(borrowings) && fresh(fines)
      ensures books.rows == map[] && copies.rows == map[] && types.rows == map[]
      ensures borrowers.rows == map[] && holds.rows == map[]
      ensures borrowings.rows == [] && fines.rows == []
    {
      books := new BookTable();
      copies := new CopyTable();
      types := new TypeTable();
      borrowers := new BorrowerTable();
      holds := new HoldTable();
      borrowings := new BorrowingTable();
      fines := new FineTable();
    }
  }

  /** The copy numbers already recorded for book callNumber. */
  function CopyNumbers(copies: map<CopyKey, string>, callNumber: int): set<int> {
    set k | k in copies && k.callNumber == callNumber :: k.copyNo
  }

  /** Every recorded copy's number is among its book's copy numbers, so a number
      outside CopyNumbers(copies, c) is free for book c. */
  lemma RecordedCopyNumber(copies: map<CopyKey, string>, k: CopyKey)
    requires k in copies
    ensures k.copyNo in CopyNumbers(copies, k.callNumber)
  {
  }

  /** Ascending order of copy keys: by call number, then by copy number. */
  predicate KeyBefore(a: CopyKey, b: CopyKey) {
    a.callNumber < b.callNumber || (a.callNumber == b.callNumber && a.copyNo < b.copyNo)
  }

  predicate StrictlyIncreasing(ks: seq<CopyKey>) {
    forall i, j :: 0 <= i < j < |ks| ==> KeyBefore(ks[i], ks[j])
  }

  /** A copy is checked out when its status is "out". */
  predicate CheckedOut(copies: map<CopyKey, string>, k: CopyKey) {
    k in copies && copies[k] == OUT
  }

  /** Every non-empty set of copy keys has a least element. */
  lemma {:induction false} LeastExists(s: set<CopyKey>) returns (m: CopyKey)
    requires s != {}
    ensures m in s
    ensures forall k :: k in s && k != m ==> KeyBefore(m, k)
    decreases |s|
  {
    var x := Pick(s);
    if s == {x} {
      m := x;
    } else {
      var rest := s - {x};
      var y := LeastExists(rest);
      assert forall k :: k in s ==> k == x || k in rest;
      m := if KeyBefore(x, y) then x else y;
    }
  }

  /** The query behind getCheckedOut: the keys of the copies whose status is
      "out", in ascending key order, built by repeatedly taking the least key
      not yet listed. */
  method SelectCheckedOut(copies: map<CopyKey, string>) returns (ks: seq<CopyKey>)
    ensures StrictlyIncreasing(ks)
    ensures forall k :: k in ks <==> CheckedOut(copies, k)
  {
    var rest := set k | k in copies && copies[k] == OUT;
    ks := [];
    while rest != {}
      invariant StrictlyIncreasing(ks)
      invariant forall k :: k in rest ==> CheckedOut(copies, k)
      invariant forall k :: k in ks ==> CheckedOut(copies, k)
      invariant forall k :: CheckedOut(copies, k) ==> (k in ks <==> k !in rest)
      invariant forall k, i :: k in rest && 0 <= i < |ks| ==> KeyBefore(ks[i], k)
      decreases |rest|
    {
      ghost var least := LeastExists(rest);
      var m :| m in rest && forall k :: k in rest && k != m ==> KeyBefore(m, k);
      ks := ks + [m];
      rest := rest - {m};
    }
  }

  /** The head of a strictly increasing list comes before all its other keys. */
  lemma HeadIsLeast(a: seq<CopyKey>)
    requires StrictlyIncreasing(a) && a != []
    ensures forall k :: k in a && k != a[0] ==> KeyBefore(a[0], k)
  {
    forall k | k in a && k != a[0]
      ensures KeyBefore(a[0], k)
    {
      var i :| 0 <= i < |a| && a[i] == k;
    }
  }

  /** Sorting is unique: two strictly increasing lists of the same keys are equal. */
  lemma {:induction false} SortedUnique(a: seq<CopyKey>, b: seq<CopyKey>)
    requires StrictlyIncreasing(a) && StrictlyIncreasing(b)
    requires forall k :: k in a <==> k in b
    ensures a == b
    decreases |a|
  {
    if a != [] || b != [] {
      assert a != [] && b != [] by {
        if a != [] {
          assert a[0] in b;
        }
        if b != [] {
          assert b[0] in a;
        }
      }
      HeadIsLeast(a);
      HeadIsLeast(b);
      assert a[0] in b && b[0] in a;
      assert a[0] == b[0];
      forall k
        ensures k in a[1..] <==> k in b[1..]
      {
        if k in a[1..] {
          var i :| 1 <= i < |a| && a[i] == k;
          assert KeyBefore(a[0], a[i]);
          assert k in b;
          var j :| 0 <= j < |b| && b[j] == k;
          assert j != 0;
          assert b[1..][j - 1] == k;
        }
        if k in b[1..] {
          var j :| 1 <= j < |b| && b[j] == k;
          assert KeyBefore(b[0], b[j]);
          assert k in a;
          var i :| 0 <= i < |a| && a[i] == k;
          assert i != 0;
          assert a[1..][i - 1] == k;
        }
      }
      SortedUnique(a[1..], b[1..]);
      assert a == [a[0]] + a[1..];
      assert b == [b[0]] + b[1..];
    }
  }

  /** The position of the latest borrowing of a copy, or -1 when it was never lent. */
  function LastIndex(rows: seq<Borrowing>, copy: CopyKey): (i: int)
    ensures -1 <= i < |rows|
    ensures 0 <= i ==> rows[i].copy == copy
    ensures forall j :: i < j < |rows| ==> rows[j].copy != copy
    decreases |rows|
  {
    if rows == [] then -1
    else if rows[|rows| - 1].copy == copy then |rows| - 1
    else LastIndex(rows[..|rows| - 1], copy)
  }

  /** Borrowing.getLast: the most recently recorded borrowing of a copy, if any. */
  function LastBorrowing(rows: seq<Borrowing>, copy: CopyKey): (r: Option<Borrowing>)
    ensures r.None? <==> forall i :: 0 <= i < |rows| ==> rows[i].copy != copy
    ensures r.Some? ==>
      exists i :: 0 <= i < |rows| && rows[i] == r.value && r.value.copy == copy &&
        forall j :: i < j < |rows| ==> rows[j].copy != copy
  {
    var i := LastIndex(rows, copy);
    if i < 0 then None else Some(rows[i])
  }

  /** Recording a borrowing of a copy makes it that copy's latest, and leaves the
      latest borrowing of every other copy as it was. */
  lemma LastBorrowingAppend(rows: seq<Borrowing>, b: Borrowing, copy: CopyKey)
    ensures LastBorrowing(rows + [b], copy) == if b.copy == copy then Some(b) else LastBorrowing(rows, copy)
  {
    assert (rows + [b])[..|rows|] == rows;
  }

  /** Book.hasHold: some hold request names this book. */
  predicate HasHold(holds: map<int, HoldRow>, callNumber: int) {
    exists hid :: hid in holds && holds[hid].callNumber == callNumber
  }
}
