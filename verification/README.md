# NPUA Library Café — a Dafny model of the controller core

This project models the request logic of four ASP.NET controllers in the
NPUA Library Café back end:

- seat **reservations**: availability, creation with validation and
  conflict detection, confirmation, cancellation, and the reminder/expiry
  sweep;
- café **orders**: pricing against the menu, the order/items/payment rows
  written together, and the staff status transitions;
- **books**: cataloguing by librarians, borrowing and returning copies,
  case-insensitive search, and the caller's open loans;
- **notifications**: the append-only log every other controller writes to,
  the caller's listing, and marking records read.

Every table the operations write (reservations, orders, order lines,
payments, books, loans, notifications) is a `seq` in which position `i`
holds the row whose identity key is `i + 1`. The menu, which they only
read, is a map from item id to price. A reservation's seat rows are held
inside the reservation. The controllers never delete a row, and the model
numbers new rows consecutively: a new row's id is the table's length plus
one. This is a modelling choice. A PostgreSQL identity column hands out
values that a failed or rolled-back insert uses up, so the real ids can
have gaps. Each request is a pure function or
method. It takes the tables, the caller's id and role, and the current time
`now`, in whole seconds. It returns a `Step`, which holds:

- the HTTP outcome: `Ok`, `BadRequest` with a reason, `NotFound`, `Forbid`,
  `Unauthorized`, or `Failed` for a write the database refuses (a 500 that
  saves nothing);
- the new tables;
- the notifications the request hands to the notification sink, as
  `Notice` values.

`Notifications.Post` appends such notices to the log. A caller id of `0`
stands for a missing or unparsable `userId` claim, which is what the
controllers' `GetUserId` returns in that case. Roles are the raw strings
`"admin"`, `"cafe staff"` and `"librarian"`. Money is integer cents.

Files:

- `common.dfy`: response and step types, roles, time units, and the two
  query combinators used throughout. `IdsWhere` is "the ids of the rows
  matching p, in id order". `CountWhere` is "the number of rows matching p".
- `notifications.dfy`: the notification log.
- `reservations.dfy`: reservations, the no-double-booking invariant and the
  sweep.
- `orders.dfy`: café orders.
- `books.dfy`: the library.
- `scenarios.dfy`: worked reservation examples on concrete times.

## Model

| member | source | states |
|---|---|---|
| Reservations.ReservedSeats | NPUALibraryCafe/Controllers/Reservationscontroller.cs:29-45 | a seat is reported exactly when some reservation that is neither Cancelled nor Expired, and whose window overlaps the half-open query window, holds it |
| Reservations.Validate | NPUALibraryCafe/Controllers/Reservationscontroller.cs:110-130 | no error exactly when the request is admissible; otherwise each error is reported exactly when every earlier check passed and its own check fails, in the source's order: start not in the future, end not after start, solo over 3 hours, group over 2 hours, no seats, solo with more than one seat |
| Reservations.Create | NPUALibraryCafe/Controllers/Reservationscontroller.cs:105-191 | Unauthorized for an anonymous caller; the validation error when inadmissible; succeeds exactly when the caller is known, the request is admissible and no live overlapping reservation holds a requested seat; otherwise the refusal names exactly the requested seats that are taken; a refusal changes nothing; success appends one Active reservation with id length+1, the requested seats and the caller as owner, and sends one "reservation_confirmed" notice to the caller |
| Reservations.CreateKeepsInvariant | NPUALibraryCafe/Controllers/Reservationscontroller.cs:133-171 | creating a reservation keeps every row well formed and keeps every seat free of two live reservations with overlapping windows |
| Reservations.Confirm | NPUALibraryCafe/Controllers/Reservationscontroller.cs:195-210 | NotFound unless the id exists and belongs to the caller; refused for Cancelled and for Expired reservations; otherwise that reservation alone becomes Confirmed with confirmation time now, including one already Confirmed; no notice |
| Reservations.ConfirmKeepsInvariant | NPUALibraryCafe/Controllers/Reservationscontroller.cs:198-207 | confirming keeps the well-formedness and no-double-booking invariant |
| Reservations.Cancel | NPUALibraryCafe/Controllers/Reservationscontroller.cs:214-243 | found when the id exists and the caller owns it or is admin; refused only when already Cancelled; otherwise that reservation alone becomes Cancelled with cancellation time now; the owner is notified exactly when an admin cancels someone else's reservation |
| Reservations.CancelKeepsInvariant | NPUALibraryCafe/Controllers/Reservationscontroller.cs:219-228 | cancelling keeps the well-formedness and no-double-booking invariant |
| Reservations.DueSetsDisjoint | NPUALibraryCafe/Controllers/Reservationscontroller.cs:255-283 | no reservation is both due a reminder and due to expire at the same instant |
| Reservations.RemindPass | NPUALibraryCafe/Controllers/Reservationscontroller.cs:255-275 | the reminder loop stamps exactly the Active, not yet reminded reservations starting within the next 15 minutes, counts them, and sends each owner one reminder notice |
| Reservations.ExpirePass | NPUALibraryCafe/Controllers/Reservationscontroller.cs:278-295 | the expiry loop expires exactly the Active, already reminded reservations whose start has passed, counts them, and notifies each owner |
| Reservations.RemindThenExpire | NPUALibraryCafe/Controllers/Reservationscontroller.cs:274-283 | running the expiry query after the reminder stamps gives the same expiry set and notices as running it on the table before them |
| Reservations.Sweep | NPUALibraryCafe/Controllers/Reservationscontroller.cs:249-305 | the whole sweep returns the swept table, the number reminded, the number expired, and the reminder notices followed by the expiry notices |
| Reservations.SweepIdempotent | NPUALibraryCafe/Controllers/Reservationscontroller.cs:255-283 | a second sweep at the same instant changes nothing and finds nothing to remind or expire |
| Reservations.SweepKeepsInvariant | NPUALibraryCafe/Controllers/Reservationscontroller.cs:274-287 | the sweep keeps the well-formedness and no-double-booking invariant |
| Reservations.ReminderStampedOnce | NPUALibraryCafe/Controllers/Reservationscontroller.cs:257-260 | a reservation already reminded is never reminded again, so its reminder time never changes |
| Scenarios.DoubleBookingRefused | NPUALibraryCafe/Controllers/Reservationscontroller.cs:133-145 | a solo booking of A1 succeeds as reservation 1; a second booking of A1 inside its window is refused naming exactly A1 |
| Scenarios.FreeWindowAccepted | NPUALibraryCafe/Controllers/Reservationscontroller.cs:133-145 | a known caller's valid request is accepted whenever every existing reservation ends by its start or begins at or after its end |
| Scenarios.BackToBackAllowed | NPUALibraryCafe/Controllers/Reservationscontroller.cs:137-138 | a window starting exactly when another ends does not conflict |
| Scenarios.GroupCapBoundary | NPUALibraryCafe/Controllers/Reservationscontroller.cs:122-123 | a group window of 2h01 is refused; exactly two hours is accepted |
| Scenarios.ConfirmTwiceAllowed | NPUALibraryCafe/Controllers/Reservationscontroller.cs:202-206 | confirming a Confirmed reservation succeeds again and re-stamps the time |
| Scenarios.ReminderThenExpiry | NPUALibraryCafe/Controllers/Reservationscontroller.cs:255-287 | ten minutes before the start the sweep reminds and keeps the booking Active; at the start it expires it |
| Notifications.Create | NPUALibraryCafe/Controllers/Notificationscontroller.cs:86-105 | appends exactly one unread record with the given owner, title, type and related id, stamped now, keeping every existing record |
| Notifications.Post | NPUALibraryCafe/Controllers/Notificationscontroller.cs:86-105 | handing several notices to the sink appends one unread record per notice, in order, and keeps the existing log |
| Notifications.PostKeepsChronological | NPUALibraryCafe/Controllers/Notificationscontroller.cs:94-103 | stamping new records with the current time keeps the log in creation-time order |
| Notifications.MarkAsRead | NPUALibraryCafe/Controllers/Notificationscontroller.cs:56-68 | succeeds exactly when the id exists and belongs to the caller, and then only that record becomes read; anything else is NotFound and changes nothing |
| Notifications.MarkAsReadCounts | NPUALibraryCafe/Controllers/Notificationscontroller.cs:59-64 | a successful mark lowers the caller's unread count by one when the record was unread, and leaves every other user's unread count unchanged |
| Notifications.MarkAllAsRead | NPUALibraryCafe/Controllers/Notificationscontroller.cs:72-83 | reports the number of the caller's unread records, and the new log has every record of the caller read and every other record as it was |
| Notifications.ReadAllCounts | NPUALibraryCafe/Controllers/Notificationscontroller.cs:75-79 | after marking all read the caller has nothing unread, so a second call reports 0, and every other user's unread count is unchanged |
| Notifications.NewestFirstKeepsNewest | NPUALibraryCafe/Controllers/Notificationscontroller.cs:32-35 | a caller's record missing from the page is older than every record on it, and then the page is full |
| Notifications.PageOwned | NPUALibraryCafe/Controllers/Notificationscontroller.cs:32-35 | the page holds at most 50 ids, each one of the caller's records, in strictly decreasing order |
| Notifications.MyNotifications | NPUALibraryCafe/Controllers/Notificationscontroller.cs:27-52 | Unauthorized exactly for an anonymous caller; lists at most 50 of the caller's own records, newest first, omitting only records older than a full page; the unread count covers all of the caller's unread records, not just the listed ones |
| Notifications.ListingNewestFirst | NPUALibraryCafe/Controllers/Notificationscontroller.cs:32-35 | on a log kept in time order the listing is ordered by creation time, newest first |
| Orders.SumAppend | NPUALibraryCafe/Controllers/OrdersController.cs:39-50 | the order total of two line lists together is the sum of their totals |
| Orders.PriceLines | NPUALibraryCafe/Controllers/OrdersController.cs:39-50 | the pricing loop succeeds exactly when every line's item is on the menu, and then its total is the sum of price times quantity; otherwise it reports the first unknown line |
| Orders.PaymentMethod | NPUALibraryCafe/Controllers/OrdersController.cs:80 | a missing or empty method becomes "cash"; any other method is kept as given |
| Orders.CreateOrder | NPUALibraryCafe/Controllers/OrdersController.cs:28-111 | Unauthorized for an anonymous caller; "no items" for a missing or empty list; succeeds exactly when every item is on the menu; a known caller's non-empty list with an item not on the menu is refused as an unknown item, naming the first one, and writes nothing; on success it writes one Pending order of the caller whose total is the priced sum and whose type defaults to "pickup", one item row per line, and one payment for the same total; it then sends the "order_pending" notice |
| Orders.ConfirmOrder | NPUALibraryCafe/Controllers/OrdersController.cs:211-234 | staff or admin only; NotFound for an unknown id; succeeds exactly for a Pending order, which alone becomes Confirmed with confirmation time now, and its owner is notified |
| Orders.MarkInProgress | NPUALibraryCafe/Controllers/OrdersController.cs:238-259 | staff or admin only; any existing order, whatever its status, becomes InProgress and its owner is notified |
| Orders.MarkDone | NPUALibraryCafe/Controllers/OrdersController.cs:263-285 | staff or admin only; any existing order becomes Done with completion time now and its owner is notified |
| Orders.UpdateStatus | NPUALibraryCafe/Controllers/OrdersController.cs:289-301 | admin only; NotFound for an unknown id; any existing order takes the given status string, no other field changes, nobody is notified |
| Orders.StaffTransitions | NPUALibraryCafe/Controllers/OrdersController.cs:238-272 | staff can move any existing order to InProgress or Done whatever its status, even a Done order back to InProgress; a second confirmation of the same order is refused as not pending |
| Orders.PendingOrders | NPUALibraryCafe/Controllers/OrdersController.cs:146-177 | Forbid exactly for callers who are neither staff nor admin; otherwise lists exactly the Pending, Confirmed and InProgress orders, each once, in placement order |
| Orders.GetOrder | NPUALibraryCafe/Controllers/OrdersController.cs:305-334 | NotFound exactly for an unknown id; the order is shown exactly to its owner, staff and admin; everyone else gets Forbid |
| Orders.QueueOrdersVisible | NPUALibraryCafe/Controllers/OrdersController.cs:146-177 | staff or admin can open every order the kitchen queue lists, and each one is still open |
| Books.AddBook | NPUALibraryCafe/Controllers/BooksController.cs:174-197 | librarian or admin only; a missing ISBN or shelf is stored as the empty string; the write fails (500, nothing saved) exactly when the stored ISBN is already taken, so a second book without an ISBN fails too; otherwise appends one book with the given title, author, category, ISBN and shelf, available copies equal to physical copies, and no PDF |
| Books.AddBookKeepsCounts | NPUALibraryCafe/Controllers/BooksController.cs:180-194 | adding a book keeps every loan pointing at an existing book and the ISBNs distinct; the new book's available copies plus open loans equal its physical copies |
| Books.EditBook | NPUALibraryCafe/Controllers/BooksController.cs:118-169 | the shared librarian edit path: Forbid for other roles, NotFound for an unknown id, otherwise only that book changes |
| Books.UpdateShelf | NPUALibraryCafe/Controllers/BooksController.cs:118-131 | Forbid for other roles, NotFound for an unknown id; sets only the book's shelf number |
| Books.UpdateCopies | NPUALibraryCafe/Controllers/BooksController.cs:136-150 | Forbid for other roles, NotFound for an unknown id; sets both copy counts to the given values, unchecked |
| Books.UpdatePdf | NPUALibraryCafe/Controllers/BooksController.cs:155-169 | Forbid for other roles, NotFound for an unknown id; sets the PDF link and no other field except the availability flag, which is set exactly when the link is present and non-empty |
| Books.UpdatePdfKeepsCounts | NPUALibraryCafe/Controllers/BooksController.cs:155-169 | changing a PDF link keeps every loan pointing at an existing book and, for every book, available copies plus open loans unchanged |
| Books.Borrow | NPUALibraryCafe/Controllers/BooksController.cs:202-238 | Unauthorized for an anonymous caller, NotFound for an unknown book, refused exactly when no copy is available; otherwise appends one open loan of that book to the caller, due 14 days from now, and decrements only that book's available copies |
| Books.Return | NPUALibraryCafe/Controllers/BooksController.cs:270-285 | NotFound unless the loan exists and is the caller's; refused exactly when it was already returned; otherwise, for the caller's own open loan, succeeds, stamps the return time, and increments the borrowed book's available copies, changing no other field of any book or loan |
| Books.BorrowKeepsValid | NPUALibraryCafe/Controllers/BooksController.cs:213-223 | borrowing keeps every loan pointing at an existing book |
| Books.ReturnKeepsValid | NPUALibraryCafe/Controllers/BooksController.cs:280-281 | returning keeps every loan pointing at an existing book |
| Books.BorrowConservesCopies | NPUALibraryCafe/Controllers/BooksController.cs:209-223 | for every book, available copies plus open loans is the same before and after a borrow |
| Books.ReturnConservesCopies | NPUALibraryCafe/Controllers/BooksController.cs:278-281 | for every book, available copies plus open loans is the same before and after a return |
| Books.NoDoubleReturn | NPUALibraryCafe/Controllers/BooksController.cs:278 | returning the same loan a second time is refused as already returned |
| Books.SearchBooks | NPUALibraryCafe/Controllers/BooksController.cs:50-70 | lists exactly the books whose lower-cased title or author contains the lower-cased query, each once, in id order |
| Books.SearchIgnoresCase | NPUALibraryCafe/Controllers/BooksController.cs:53-54 | upper-casing or lower-casing the query does not change the result |
| Books.LoanViewsComplete | NPUALibraryCafe/Controllers/BooksController.cs:248-249 | every open loan of the caller appears in the listing |
| Books.LoanViewsSound | NPUALibraryCafe/Controllers/BooksController.cs:248-261 | every listed row is an open loan of the caller, showing its book and due date, and marked overdue exactly when the due date is before now |
| Books.BorrowedBooks | NPUALibraryCafe/Controllers/BooksController.cs:243-265 | Unauthorized exactly for an anonymous caller; lists exactly the caller's open loans, each in exactly one row, marked overdue exactly when it is past due |

## Behaviour worth noting

The model keeps each of these as the code has it.

- `ConfirmReservation` refuses only Cancelled and Expired reservations
  (`NPUALibraryCafe/Controllers/Reservationscontroller.cs:202-203`). Its
  route comment says confirmation happens "when reminded" (line 193), but
  no reminder is needed. A Confirmed reservation can be confirmed again,
  which moves its confirmation time (`Scenarios.ConfirmTwiceAllowed`).
- `CancelReservation` refuses only an already Cancelled reservation
  (`Reservationscontroller.cs:224`). An Expired or a Confirmed reservation
  can be cancelled.
- The expiry query takes only Active reservations that have started and
  carry a reminder stamp (`Reservationscontroller.cs:278-283`). The comment
  above it speaks of reservations that "started but weren't confirmed"
  (line 277). The reminder query needs a start still in the future. So a
  reservation never reminded before its start is never expired by the
  sweep. It stays Active: its owner can still confirm it, and its owner or
  an admin can still cancel it.
- The entity classes in the Models folder do not declare every column the
  books controller uses. `Book` lacks `Availablecopies`, `Physicalcopies`,
  `Pdfurl`, `Pdfavailable` and `Shelfnumber`
  (`BooksController.cs:127,145-146,164-165,187-190`). `Borrowing` names its key `Borrowid`
  where the controller says `Borrowingid`, and types `Borrowdate`,
  `Duedate` and `Returndate` as `DateOnly` where the controller assigns
  `DateTime` values (`BooksController.cs:212-219,260,280`). The model
  follows the controller and keeps all times in seconds.
- `AddBook` stores a missing ISBN as the empty string
  (`BooksController.cs:184`), and the ISBN column has a unique index
  (`Models/LibraryCafeDbContext.cs:57`). So only the first book added
  without an ISBN is saved. Every later one fails the insert.

## Left out

- Async I/O, Entity Framework change tracking, transactions and
  concurrency. Each request is one atomic step. Two concurrent
  `CreateReservation` calls can both pass the seat check in the source;
  that race is not modelled.
- `DateTime.Now` is the parameter `now`, in whole seconds. The source
  compares `TimeSpan.TotalHours` as a double. That comparison is exact on
  whole seconds, so the model compares seconds against 3 and 2 hours.
- Message texts of notifications and responses are not modelled. They are
  formatted strings with dates. Notification titles and types are kept
  verbatim.
- Reservations.ReservedSeats: returns a set. The source returns a list
  with one entry per seat row of each overlapping reservation, in
  unspecified order.
- Reservations.Create: the refusal carries the set of taken seats. The
  source joins `Intersect`'s distinct seats, in request order, into a
  message. The notes length limit of the entity is not checked by the
  controller and is not modelled.
- Reservations.Sweep: visits reservations in id order. The source's query
  order is unspecified, so the order of the notices may differ.
- Notifications.MyNotifications: orders by id. The source orders by
  creation time, and ties between equal timestamps come in unspecified
  order. On a log kept in time order the two agree (`ListingNewestFirst`).
- Orders.PendingOrders: returns order ids in placement order. The source
  orders by `Orderdate` and also joins the user and item rows for display.
- Books.SearchBooks: lists matches in id order. The source query has no
  `OrderBy`, so its order is unspecified. The model lower-cases ASCII
  letters only. In the source the query is lowered by .NET's
  culture-sensitive `ToLower`, and the title and author are lowered by the
  database's `lower()`, which follows the database collation. A missing
  (null) query throws in the source and is not modelled.
- Books.Return: requires every loan to point at an existing book. The
  database's foreign key guarantees this, and the source would fail on a
  loan without its book.
- Database failures other than the unique ISBN in `AddBook` are not
  modelled. Each of these ends in a 500 in the source but can succeed in
  the model:
  - the rollback in `CreateOrder`;
  - a foreign key naming an unknown user;
  - the other unique indexes;
  - the 20-character limits on the ISBN, the order type and status, the
    payment method (`Models/LibraryCafeDbContext.cs:69-71,131-137,222-224`),
    and the reservation type, status and seat id (`Models/Reservation.cs:19,29`,
    `Models/Reservationseat.cs:17`). So a long status in `UpdateStatus`,
    or a long order type, payment method or ISBN, is accepted by the model.
- Reservations.Create: is one atomic step. The source saves the reservation
  (`Reservationscontroller.cs:160`) and then its seats in a second save
  (line 171). If the second save fails, an Active reservation with no
  seats remains.
- Books.Borrow: does not model 32-bit wrap-around of `Availablecopies--`
  (`BooksController.cs:223`). The decrement runs only when the count is
  positive, so it cannot wrap.
- Books.Return: does not model 32-bit wrap-around of `Availablecopies++`
  (`BooksController.cs:281`). The model's counts are unbounded; the source
  would wrap only at 2147483647 copies, which `UpdateCopies` could set.
- Menu item names and prices carried for display are not modelled. The
  order rows store only ids, quantities and the total.
- Plain read queries outside the core are not modelled:
  - `GetMyReservations` and `GetAllReservations`;
  - `GetMyOrders` and `GetAllOrders`;
  - `GetBooks`, `GetByCategory`, `GetBook`, `GetReviews` and `AddReview`.
- The Auth and Menu controllers are not part of this model. They handle
  token issuing, password hashing and menu reads.
