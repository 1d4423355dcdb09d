# Library checkout system: the checkout/return rules and their date arithmetic

This project models the core of a small library checkout system (CPSC 304, 2013). Books have numbered
copies. Borrowers check copies out, return them and place hold requests. Everything is stored in SQL
tables. The model replaces the database with in-memory tables: one Dafny class per table, held by a
`Database` object.

- Rows are keyed by callNumber, (callNumber, copyNo), bid, hid and borrower type name.
- Borrowing and Fine records are kept as sequences in insertion order.
- Each accessor object (`Book`, `BookCopy`, `Borrower`, `HoldRequest`) is a class whose fields mirror
  its row. Its methods update the table and the object's fields in place, as the Java setters do.
- A database write either succeeds or is rolled back and rethrown. The model takes that outcome as a
  boolean parameter (`writeOk`, `recordOk`, `statusOk`, `fineOk`). A failed write yields
  `WriteFailed` and leaves the table as it was.
- The clock is a parameter `today`.
- Dates are whole days of the proleptic Gregorian calendar: a `CalendarDate` that is a valid day,
  placed on a time line by `Ordinal`.

Modules:

- `Common`: the errors the accessors throw, and key generation. A new key is the table's maximum plus
  one, or 1 for an empty table.
- `DateParser`: `convertToDate` on strings and on fields, `todayPlusDays`, `daysBetween` and
  `Date.after`.
- `Storage`: the row datatypes, the table classes and the queries the accessors hand to SQL.
- `Borrowers`: the `Borrower` accessor.
- `Books`: the `Book` and `BookCopy` accessors, including checkout and return.
- `Records`: the `HoldRequest` accessor.

Behaviour that the model keeps as written:

- **daysBetween ignores leap days.** `daysBetween(a, b)` is `365 * year + dayOfYear` of `a` minus the
  same of `b`. Across a year boundary it is short by the leap days in between
  (`DaysBetweenMissesLeapDays`). So a return on 1 January after a leap year, with 31 December as the
  due date, is 0 days late (`DaysBetweenLosesLeapDay`). A positive value still always means a later
  day (`PositiveDaysBetweenIsLater`), so a fine is never charged for an on-time return.
- **Loading a borrower can fail.** `Borrower.parseLine` unboxes a NULL phone column into a primitive
  field, which throws a NullPointerException. It also loads the borrower type from its table, which
  throws "No such Borrower Type." when the type is missing (`Loadable`, `LoadError`).
  `HoldRequest.generate` loads every borrower, so a single unloadable row makes it fail.
- **The calendar is lenient.** `convertToDate(year, month, day)` carries a month outside 1..12 into
  the year. It counts the day from the first of that month, so out-of-range days roll into the
  neighbouring months.

## Model

| member | source | states |
|---|---|---|
| Common.NextKey | src/com/book/BookCopy.java:102-113 | the generated key is the largest existing key plus one, or 1 for an empty table, and is unused |
| Common.NextKeyUnique | src/com/borrower/Borrower.java:145-156 | only one key meets the max-plus-one rule, so key generation is deterministic |
| DateParser.DayOfYear | src/com/date/DateParser.java:73-74 | DAY_OF_YEAR lies between 1 and the length of the year, and equals the day of the month in January |
| DateParser.NextDayOrdinal | src/com/date/DateParser.java:55-59 | the following day is exactly one place later on the time line, across month and year ends |
| DateParser.PrevDayOrdinal | src/com/date/DateParser.java:55-59 | the preceding day is exactly one place earlier on the time line |
| DateParser.AddDaysOrdinal | src/com/date/DateParser.java:55-59 | adding n calendar days (n of either sign) moves a date exactly n places on the time line |
| DateParser.AddDaysInMonth | src/com/date/DateParser.java:55-59 | adding days that stay within the month changes only the day of the month |
| DateParser.AfterIsLater | src/com/borrower/Borrower.java:284-286 | Date.after on whole days holds exactly when the first date lies later on the time line |
| DateParser.OrdinalInjective | src/com/date/DateParser.java:55-59 | two dates at the same place on the time line are the same date |
| DateParser.TodayPlusDaysShift | src/com/date/DateParser.java:55-59 | todayPlusDays(n) lies exactly n days from today; it is today for n = 0 and a later day for n > 0 |
| DateParser.TodayPlusDaysReaches | src/com/date/DateParser.java:55-59 | every date is todayPlusDays of its distance from today |
| DateParser.AfterIsPositiveShift | src/com/date/DateParser.java:55-59 | x is after y exactly when x is y shifted forward by some positive number of days |
| DateParser.DaysBetween | src/com/date/DateParser.java:66-77 | for two dates of the same year, daysBetween is the difference of their days of the year |
| DateParser.DaysBetweenMissesLeapDays | src/com/date/DateParser.java:73-76 | daysBetween is the true distance minus the leap days from b's year up to a's year |
| DateParser.DaysBetweenAlgebra | src/com/date/DateParser.java:73-76 | daysBetween(a, a) is 0, it is antisymmetric, and it adds up along a chain of dates |
| DateParser.PositiveDaysBetweenIsLater | src/com/book/BookCopy.java:291-293 | a positive daysBetween(a, b) means that a falls after b |
| DateParser.DaysBetweenWithoutLeapDays | src/com/date/DateParser.java:73-76 | with no leap year in the span, daysBetween equals the true distance |
| DateParser.DaysBetweenLosesLeapDay | src/com/date/DateParser.java:73-76 | after a leap year, 1 January is the day after 31 December and is after it, but daysBetween gives 0 |
| DateParser.FirstOfMonth | src/com/date/DateParser.java:37-42 | the 1-based month becomes a month of the year, with whole years carried, keeping 12 * year + month |
| DateParser.ConvertFields | src/com/date/DateParser.java:37-42 | a valid (year, month, day) converts to that same date; any day counts from the first of its month |
| DateParser.ParseInt | src/com/date/DateParser.java:20-22 | Integer.parseInt accepts only a numeral (an optional leading sign, then digits only, ending in a digit); an unsigned, '+' or '-' numeral yields its value when that fits 32 bits and is rejected otherwise |
| DateParser.NonDigitFieldFails | src/com/date/DateParser.java:19-24 | a character that is not a digit anywhere in the year, month or day field, other than a sign at the head of the field, makes the conversion fail |
| DateParser.ConvertToDate | src/com/date/DateParser.java:19-24 | parses year, month and day from the fixed positions 0-3, 5-6 and 8 onward; a short input or a non-numeric field is an error |
| DateParser.SeparatorsUnread | src/com/date/DateParser.java:19-24 | characters 4 and 7 never influence the result |
| DateParser.ParseFormatRoundTrip | src/com/date/DateParser.java:19-24 | parsing a date written as zero-padded YYYY-MM-DD gives back the same date |
| Storage.BorrowingTable.Add | src/com/book/BookCopy.java:281 | appends one borrowing with the given fields under a fresh max-plus-one id, or changes nothing when the write fails |
| Storage.FineTable.Add | src/com/book/BookCopy.java:293 | appends one fine with the given fields under a fresh max-plus-one id, or changes nothing when the write fails |
| Storage.SelectCheckedOut | src/com/book/BookCopy.java:162 | lists exactly the keys of copies with status "out", strictly ascending by (callNumber, copyNo) |
| Storage.SortedUnique | src/com/book/BookCopy.java:162 | two strictly ascending lists of the same keys are equal, so the ordered selection is unique |
| Storage.LastBorrowing | src/com/book/BookCopy.java:289 | the last appended borrowing row for the copy; none exactly when the copy was never lent |
| Storage.LastBorrowingAppend | src/com/book/BookCopy.java:278-289 | recording a borrowing makes it the copy's latest and leaves other copies' latest unchanged |
| Borrowers.Borrower.Add | src/com/borrower/Borrower.java:98-134 | stores a row with exactly the given fields under the max-plus-one bid; a failed write changes nothing |
| Borrowers.Borrower.Get | src/com/borrower/Borrower.java:169-186 | loads the stored row with its type's time limit; fails with NoSuchBorrower, or with the row's load error exactly for the stored borrowers that cannot be loaded (a NULL phone, an unknown type) |
| Borrowers.Borrower.Delete | src/com/borrower/Borrower.java:258-277 | removes exactly this borrower's row when the write succeeds |
| Borrowers.Borrower.IsValid | src/com/borrower/Borrower.java:284-286 | valid exactly when the expiry date lies strictly later than today |
| Borrowers.ValidUntilExpiry | src/com/borrower/Borrower.java:284-286 | valid exactly when the expiry date is today plus some positive number of days |
| Borrowers.Borrower.SetPassword | src/com/borrower/Borrower.java:312-335 | on success, the row and the object change in the password only; on failure, nothing changes |
| Borrowers.Borrower.SetName | src/com/borrower/Borrower.java:354-377 | on success, the row and the object change in the name only; on failure, nothing changes |
| Borrowers.Borrower.SetAddress | src/com/borrower/Borrower.java:396-419 | on success, the row and the object change in the address only; on failure, nothing changes |
| Borrowers.Borrower.SetPhone | src/com/borrower/Borrower.java:438-461 | on success, the row and the object change in the phone only; on failure, nothing changes |
| Borrowers.Borrower.SetEmailAddress | src/com/borrower/Borrower.java:480-503 | on success, the row and the object change in the email address only; on failure, nothing changes |
| Borrowers.Borrower.SetSinOrStNo | src/com/borrower/Borrower.java:522-545 | on success, the row and the object change in the SIN or student number only; on failure, nothing changes |
| Borrowers.Borrower.SetExpiryDate | src/com/borrower/Borrower.java:564-587 | on success, the row and the object change in the expiry date only; on failure, nothing changes |
| Borrowers.Borrower.SetType | src/com/borrower/Borrower.java:606-629 | on success, the row's type name and the object's type change and nothing else; on failure, nothing changes |
| Books.AvailableAfterStatus | src/com/book/BookCopy.java:339-363 | writing one copy's status changes that copy's availability alone: it joins its book's available copies when set to "in" and leaves them otherwise, so a checked-out copy can no longer be found by findAvailableCopy |
| Books.Book.Generate | src/com/book/Book.java:66-80 | adds a book under the max-plus-one callNumber with isbn 0, title, author and publisher "a" and year 0 |
| Books.Book.Add | src/com/book/Book.java:103-132 | inserts the row under the given, unused callNumber; otherwise fails and changes nothing |
| Books.Book.Get | src/com/book/Book.java:146-162 | returns the stored book, or fails with NoSuchBook |
| Books.Book.Delete | src/com/book/Book.java:224-243 | removes exactly this book's row when the write succeeds |
| Books.Book.FindAvailableCopy | src/com/book/Book.java:254-274 | returns some copy of this book whose status is "in", or fails with NoAvailableCopies when there is none |
| Books.Book.SetIsbn | src/com/book/Book.java:300-323 | on success, the row and the object change in the isbn only; on failure, nothing changes |
| Books.Book.SetTitle | src/com/book/Book.java:342-365 | on success, the row and the object change in the title only; on failure, nothing changes |
| Books.Book.SetMainAuthor | src/com/book/Book.java:384-407 | on success, the row and the object change in the main author only; on failure, nothing changes |
| Books.Book.SetPublisher | src/com/book/Book.java:426-449 | on success, the row and the object change in the publisher only; on failure, nothing changes |
| Books.Book.SetYear | src/com/book/Book.java:468-491 | on success, the row and the object change in the year only; on failure, nothing changes |
| Books.BookCopy.Add | src/com/book/BookCopy.java:63-91 | adds a copy under the book's max-plus-one copy number, which no copy of that book uses; no other row changes |
| Books.BookCopy.Get | src/com/book/BookCopy.java:129-147 | returns the copy keyed (callNumber, copyNo) with its book reloaded; fails with NoSuchCopy, then NoSuchBook |
| Books.BookCopy.GetCheckedOut | src/com/book/BookCopy.java:160-175 | exactly the copies with status "out", strictly ascending by (callNumber, copyNo), each with its book freshly loaded from its stored row; NoSuchBook when a checked-out copy's book is missing |
| Books.BookCopy.GetOverdue | src/com/book/BookCopy.java:188-200 | exactly the checked-out copies whose latest borrowing fell due before today, in the same ascending order, each with its book freshly loaded from its stored row |
| Books.BookCopy.Delete | src/com/book/BookCopy.java:256-276 | removes exactly this copy's row when the write succeeds |
| Books.BookCopy.SetStatus | src/com/book/BookCopy.java:339-363 | on success, this copy's stored and in-memory status both change; on failure, neither does |
| Books.BookCopy.Checkout | src/com/book/BookCopy.java:278-286 | appends one borrowing by this borrower, out today and due after the borrower type's time limit, then marks the copy "out" |
| Books.BookCopy.DoReturn | src/com/book/BookCopy.java:288-306 | adds one fine of fee times daysLate exactly when daysLate is positive, then sets the status to "on-hold" if the book has a hold, else "in" |
| Records.HoldRequest.Generate | src/com/book/records/HoldRequest.java:60-76 | adds a hold under the max-plus-one hid for a stored borrower and book, issued at the epoch; fails on an unloadable borrower or an empty table |
| Records.HoldRequest.Add | src/com/book/records/HoldRequest.java:95-122 | inserts the hold under the given, unused hid; otherwise fails and changes nothing |
| Records.HoldRequest.Get | src/com/book/records/HoldRequest.java:136-152 | loads the hold, then its borrower and its book; fails with NoSuchHoldRequest or the error of the first load that fails |
| Records.HoldRequest.Delete | src/com/book/records/HoldRequest.java:209-228 | removes exactly this hold's row when the write succeeds |
| Records.HoldRequest.SetBid | src/com/book/records/HoldRequest.java:254-277 | on success, the row and the object change in the borrower only; on failure, nothing changes |
| Records.HoldRequest.SetCallNumber | src/com/book/records/HoldRequest.java:296-319 | on success, the row and the object change in the book only; on failure, nothing changes |
| Records.HoldRequest.SetIssuedDate | src/com/book/records/HoldRequest.java:338-361 | on success, the row and the object change in the issued date only; on failure, nothing changes |
| Records.HoldMakesHasHold | src/com/book/BookCopy.java:297 | storing a hold request on a book gives that book a hold, so DoReturn's status clause then puts a returned copy "on-hold" |
| Records.DeleteLastHold | src/com/book/BookCopy.java:297 | deleting the only hold request on a book clears its hold, so DoReturn's status clause then puts a returned copy back "in" |

## Left out

- SQL and JDBC: the query text, `commit`, `rollback` and the `System.exit(-1)` taken when a rollback itself fails. Each write is one boolean outcome. A rejected write, including a foreign-key or uniqueness violation, becomes `WriteFailed` and leaves the table unchanged.
- Storage order: `getAll().get(0)` in `HoldRequest.generate` takes the first row in whatever order the database returns. The model leaves the choice open and only says that the row is stored.
- The Swing user interface. The one fact kept from it is that the clerk's checkout form (src/com/ui/clerk/Checkout.java:55-66) calls `checkout` only for a valid borrower and a copy found by `findAvailableCopy`. These are `Books.BookCopy.Checkout`'s preconditions.
- The `getAll` accessors. In the modelled operations only `HoldRequest.generate` uses them (`Borrower.getAll`, `Book.getAll`), and the model reads the tables themselves there. The getters are not separate members: they are reads of the classes' fields.
- Borrowers.Borrower.IsValid: requires a stored expiry date. `parseLine` lets a NULL expiry through (src/com/borrower/Borrower.java:241-242), and `isValid` then throws a NullPointerException (src/com/borrower/Borrower.java:285); the model does not promise anything for that case, and `Books.BookCopy.Checkout` inherits the same requirement.
- `Borrowing.add`, `Borrowing.getLast`, `Fine.add`, `Book.hasHold` and `Book.getHold` are not part of this model's sources:
  - `Storage.BorrowingTable.Add` and `Storage.FineTable.Add` append a record under a max-plus-one id, as the schema's other keys are generated.
  - `Storage.LastBorrowing` is the last appended record of the copy. A copy with no record fails with `NoBorrowingRecord`, standing for whatever the missing method raises. A lookup by the greatest outDate would agree with it only while `today` never goes backwards between checkouts; the model does not promise that case.
  - `Storage.HasHold` is "some hold request names the book".
- `Fine.FEE_PER_DAY` is a parameter `feePerDay` of `Books.BookCopy.DoReturn`.
- The notifications that `checkout` and `doReturn` print, including the `getHold` lookup that only serves the "Notify borrower" message.
- Floats: `isbn`, `phone`, `sinOrStNo` and a fine's `amount` are integers. The fine amount is the integer product of fee and days late.
- Time of day and time zones: `today()` and `todayPlusDays` carry a time of day in the source. The model works on whole days, so `getOverdue`'s `after` test compares calendar days. On the due day itself the source's `after` test sees the current time past the stored due date (midnight), so it lists the copy as overdue; the model lists it only from the next day on. `doReturn` charges nothing on the due day in both.
- The Julian calendar before 1582 and years outside the range of `java.util.Calendar`. The model uses the proleptic Gregorian calendar for every year.
- `Integer.parseInt` on non-ASCII Unicode digits. Only '0' to '9' are digits in the model.
- 32-bit overflow of generated keys at `Integer.MAX_VALUE`. Keys are unbounded integers.
- DateParser.DaysBetween: does not model the 32-bit overflow of `365 * year` for years beyond about 5.88 million in magnitude; the model's arithmetic is unbounded.
- Concurrency: two clients generating the same max-plus-one key at once.
- An SQLException from the `MAX` query of key generation. The model's key query cannot fail.
