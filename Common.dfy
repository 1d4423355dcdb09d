/** Values shared by every table accessor: optional values, results carrying
    the error an accessor throws, and the max+1 key allocation that every
    generated key of the schema uses. */
module Common {

  datatype Option<+T> = None | Some(value: T)

  /** The failures the accessors raise. Each one is a thrown SQLException (or an
      unchecked exception) in the original program; the first six carry the
      message the accessors write themselves. */
  datatype Error =
    | NoSuchBook          // "No such Book."
    | NoSuchCopy          // "No such Copy of this Book."
    | NoSuchBorrower      // "No such Borrower."
    | NoSuchHoldRequest   // "No such Hold Request."
    | NoSuchBorrowerType  // "No such Borrower Type."
    | NoAvailableCopies   // "No available copies."
    | NoBorrowingRecord   // Borrowing.getLast found no record for the copy
    | WriteFailed         // the database rejected a write; it was rolled back
    | IndexOutOfBounds    // String.substring or List.get outside the bounds
    | NumberFormat        // Integer.parseInt rejected its argument
    | NullPointer         // a NULL column unboxed into a primitive field

  datatype Result<+T> = Ok(value: T) | Err(error: Error)

  /** The outcome of an operation that returns nothing (a Java void method that may throw). */
  datatype Outcome = Pass | Fail(error: Error)

  /** The outcome of one write to the database. */
  function WriteOutcome(writeOk: bool): Outcome {
    if writeOk then Pass else Fail(WriteFailed)
  }

  /** k is the key the generators compute for a table whose keys are `keys`:
      the maximum plus one, or 1 on an empty table (the maximum of no rows is
      NULL, which is read as 0). */
  ghost predicate IsNextKey(k: int, keys: set<int>) {
    && k !in keys
    && (keys == {} ==> k == 1)
    && (keys != {} ==> k - 1 in keys && forall j :: j in keys ==> j < k)
  }

  /** Only one key satisfies IsNextKey, so key generation is deterministic. */
  lemma NextKeyUnique(k1: int, k2: int, keys: set<int>)
    requires IsNextKey(k1, keys) && IsNextKey(k2, keys)
    ensures k1 == k2
  {
    if keys != {} {
      assert k1 - 1 in keys && k2 - 1 in keys;
    }
  }

  /** Some element of a non-empty set. */
  lemma Pick<T>(s: set<T>) returns (x: T)
    requires s != {}
    ensures x in s
  {
    if forall y :: y !in s {
      assert false;
    }
    x :| x in s;
  }

  /** generateKey: scans the keys for their maximum and returns it plus one. */
  method NextKey(keys: set<int>) returns (k: int)
    ensures IsNextKey(k, keys)
    ensures k !in keys
  {
    var max := 0;
    var found := false;
    var rest := keys;
    while rest != {}
      invariant rest <= keys
      invariant !found ==> rest == keys && max == 0
      invariant found ==> max in keys
      invariant forall j :: j in keys && j !in rest ==> j <= max
      decreases |rest|
    {
      ghost var w := Pick(rest);
      var x :| x in rest;
      if !found || x > max {
        max := x;
        found := true;
      }
      rest := rest - {x};
    }
    k := max + 1;
  }
}
