/**
 The seat reservation subsystem: users book shared seats for a half-open
 time window [start, end). A reservation is Active when created, may be
 Confirmed by its owner, Cancelled by its owner or an admin, and Expired by
 the reminder/expiry sweep. Cancelled and Expired reservations no longer
 hold their seats.

 The store is the reservations table; each reservation carries its own
 seat rows, which are created with it and never change. Operations are
 single atomic steps taken one after another.
 */
module Reservations {
  import opened Common

  datatype Status = Active | Confirmed | Cancelled | Expired

  /** One reservation and its seat rows; its id is its position plus one. */
  datatype Reservation = Reservation(
    owner: int,
    kind: string,
    start: int,
    end: int,
    status: Status,
    seats: seq<string>,
    reminderSentAt: Option<int>,
    confirmedAt: Option<int>,
    cancelledAt: Option<int>,
    notes: Option<string>,
    createdAt: int)

  type Store = seq<Reservation>

  const SOLO := "solo"
  const GROUP := "group"

  /** The longest window each kind may book; other kinds have no cap. */
  const SOLO_CAP := 3 * HOUR
  const GROUP_CAP := 2 * HOUR

  /** How long before its start a reservation is reminded. */
  const REMINDER_LEAD := 15 * MINUTE

  const CREATED_TITLE := "Reservation Created! ✅"
  const CANCELLED_TITLE := "Reservation Cancelled"
  const REMINDER_TITLE := "⏰ Reservation Starting Soon!"
  const EXPIRED_TITLE := "Reservation Expired ❌"

  // ---------------------------------------------------------------------
  // Seat-time index
  // ---------------------------------------------------------------------

  /** Cancelled and Expired reservations no longer hold their seats. */
  predicate Live(r: Reservation) {
    r.status != Cancelled && r.status != Expired
  }

  /** The reservation's window meets the half-open window [start, end). */
  predicate Overlaps(r: Reservation, start: int, end: int) {
    r.start < end && r.end > start
  }

  /** The reservation keeps its seats from being booked for [start, end). */
  predicate Blocks(r: Reservation, start: int, end: int) {
    Live(r) && Overlaps(r, start, end)
  }

  /**
   The seats held during [start, end): exactly those of the live
   reservations whose window overlaps it. The same test drives both the
   availability query and the conflict check on create.
   */
  function ReservedSeats(store: Store, start: int, end: int): (seats: set<string>)
    ensures forall seat :: seat in seats <==>
      exists i :: 0 <= i < |store| && Blocks(store[i], start, end) && seat in store[i].seats
    decreases |store|
  {
    if |store| == 0 then {}
    else
      var front := store[..|store| - 1];
      var last := store[|store| - 1];
      assert forall i :: 0 <= i < |front| ==> front[i] == store[i];
      ReservedSeats(front, start, end) + (if Blocks(last, start, end) then set s | s in last.seats else {})
  }

  // ---------------------------------------------------------------------
  // Validator
  // ---------------------------------------------------------------------

  datatype Invalid =
    | StartNotInFuture
    | EndNotAfterStart
    | SoloTooLong
    | GroupTooLong
    | NoSeats
    | SoloTooManySeats

  /** The duration cap of a kind: a window of exactly the cap is allowed. */
  predicate WithinCap(kind: string, duration: int) {
    && (kind == SOLO ==> duration <= SOLO_CAP)
    && (kind == GROUP ==> duration <= GROUP_CAP)
  }

  /** The booking policy as a whole. */
  predicate Admissible(kind: string, start: int, end: int, seats: seq<string>, now: int) {
    && now < start < end
    && WithinCap(kind, end - start)
    && |seats| >= 1
    && (kind == SOLO ==> |seats| == 1)
  }

  /**
   Checks a request against the policy, in the source's order, and names
   the first rule it breaks. A missing seat list reads as an empty one.
   */
  function Validate(kind: string, start: int, end: int, seats: seq<string>, now: int): (r: Option<Invalid>)
    ensures r.None? <==> Admissible(kind, start, end, seats, now)
    ensures r == Some(StartNotInFuture) <==> start <= now
    ensures r == Some(EndNotAfterStart) <==> now < start && end <= start
    ensures r == Some(SoloTooLong) <==> now < start < end && kind == SOLO && end - start > SOLO_CAP
    ensures r == Some(GroupTooLong) <==> now < start < end && kind == GROUP && end - start > GROUP_CAP
    ensures r == Some(NoSeats) <==> now < start < end && WithinCap(kind, end - start) && |seats| == 0
    ensures r == Some(SoloTooManySeats) <==>
      now < start < end && WithinCap(kind, end - start) && kind == SOLO && |seats| > 1
  {
    var duration := end - start;
    if start <= now then Some(StartNotInFuture)
    else if end <= start then Some(EndNotAfterStart)
    else if kind == SOLO && duration > SOLO_CAP then Some(SoloTooLong)
    else if kind == GROUP && duration > GROUP_CAP then Some(GroupTooLong)
    else if |seats| == 0 then Some(NoSeats)
    else if kind == SOLO && |seats| > 1 then Some(SoloTooManySeats)
    else None
  }

  // ---------------------------------------------------------------------
  // Invariants of the store
  // ---------------------------------------------------------------------

  /** Two reservations name a common seat. */
  predicate ShareSeat(a: Reservation, b: Reservation) {
    exists s :: s in a.seats && s in b.seats
  }

  /** No seat is held by two live reservations whose windows overlap. */
  ghost predicate NoDoubleBooking(store: Store) {
    forall i, j :: 0 <= i < |store| && 0 <= j < |store| && i != j
      && Live(store[i]) && Live(store[j]) && ShareSeat(store[i], store[j])
      ==> !Overlaps(store[i], store[j].start, store[j].end)
  }

  /**
   What every stored row satisfies: a proper window and seat list, and a
   timestamp for the transition that led to its status. Expiry never skips
   the reminder.
   */
  predicate RowOk(r: Reservation) {
    && r.start < r.end
    && |r.seats| >= 1
    && (r.kind == SOLO ==> |r.seats| == 1)
    && WithinCap(r.kind, r.end - r.start)
    && (r.status == Confirmed ==> r.confirmedAt.Some?)
    && (r.status == Cancelled ==> r.cancelledAt.Some?)
    && (r.status == Expired ==> r.reminderSentAt.Some?)
  }

  ghost predicate Invariant(store: Store) {
    && (forall i :: 0 <= i < |store| ==> RowOk(store[i]))
    && NoDoubleBooking(store)
  }

  // ---------------------------------------------------------------------
  // Create
  // ---------------------------------------------------------------------

  datatype CreateError = Rejected(reason: Invalid) | SeatsTaken(seats: set<string>)

  /** The row a successful create stores. */
  function NewReservation(caller: int, kind: string, start: int, end: int, seats: seq<string>,
                          notes: Option<string>, now: int): Reservation
  {
    Reservation(caller, kind, start, end, Active, seats, None, None, None, notes, now)
  }

  /**
   Books `seats` for [start, end). An anonymous caller, a request breaking
   the policy, or a seat already held by an overlapping live reservation is
   rejected with no change; the conflict error lists exactly the requested
   seats that are held. Otherwise exactly one Active reservation is added,
   nothing else changes, and the owner is notified.
   */
  function Create(store: Store, caller: int, kind: string, start: int, end: int, seats: seq<string>,
                  notes: Option<string>, now: int): (r: Step<Store, nat, CreateError>)
    ensures caller == ANONYMOUS ==> r.response.Unauthorized?
    ensures caller != ANONYMOUS && !Admissible(kind, start, end, seats, now) ==>
      r.response == BadRequest(Rejected(Validate(kind, start, end, seats, now).value))
    ensures r.response.Ok? <==>
      && caller != ANONYMOUS
      && Admissible(kind, start, end, seats, now)
      && forall i, s :: 0 <= i < |store| && s in store[i].seats && Blocks(store[i], start, end) ==> s !in seats
    ensures caller != ANONYMOUS && Admissible(kind, start, end, seats, now) && !r.response.Ok? ==>
      r.response.BadRequest? && r.response.error.SeatsTaken?
    ensures r.response.BadRequest? && r.response.error.SeatsTaken? ==>
      forall s :: s in r.response.error.seats <==>
        s in seats && exists i :: 0 <= i < |store| && Blocks(store[i], start, end) && s in store[i].seats
    ensures !r.response.Ok? ==> r.state == store && r.notices == []
    ensures r.response.Ok? ==>
      && r.response.value == |store| + 1
      && |r.state| == |store| + 1 && r.state[..|store|] == store
      && r.state[|store|] == NewReservation(caller, kind, start, end, seats, notes, now)
      && r.notices == [Notice(caller, CREATED_TITLE, "reservation_confirmed", |store| + 1)]
  {
    if caller == ANONYMOUS then Reject(Unauthorized, store)
    else match Validate(kind, start, end, seats, now)
      case Some(why) => Reject(BadRequest(Rejected(why)), store)
      case None =>
        var held := ReservedSeats(store, start, end);
        var taken := set s | s in seats && s in held;
        if taken != {} then
          assert exists i, s :: 0 <= i < |store| && s in store[i].seats && Blocks(store[i], start, end) && s in seats by {
            var s :| s in taken;
            assert s in held;
          }
          Reject(BadRequest(SeatsTaken(taken)), store)
        else
          assert forall i, s :: 0 <= i < |store| && s in store[i].seats && Blocks(store[i], start, end) ==>
            s !in seats by {
            forall i, s | 0 <= i < |store| && s in store[i].seats && Blocks(store[i], start, end)
              ensures s !in seats
            {
              assert s in held;
              assert s in seats ==> s in taken;
            }
          }
          var id := |store| + 1;
          var store' := store + [NewReservation(caller, kind, start, end, seats, notes, now)];
          assert store'[..|store|] == store;
          Step(Ok(id), store', [Notice(caller, CREATED_TITLE, "reservation_confirmed", id)])
  }

  /**
   With creates taken one at a time, a successful create never books a
   seat twice: the invariant, and no double booking in particular, holds
   after it.
   */
  lemma CreateKeepsInvariant(store: Store, caller: int, kind: string, start: int, end: int,
                             seats: seq<string>, notes: Option<string>, now: int)
    requires Invariant(store)
    ensures Invariant(Create(store, caller, kind, start, end, seats, notes, now).state)
  {
    var r := Create(store, caller, kind, start, end, seats, notes, now);
    if r.response.Ok? {
      var s' := r.state;
      var n := s'[|store|];
      assert forall i :: 0 <= i < |store| ==> s'[i] == store[i];
      forall i, j | 0 <= i < |s'| && 0 <= j < |s'| && i != j
        && Live(s'[i]) && Live(s'[j]) && ShareSeat(s'[i], s'[j])
        ensures !Overlaps(s'[i], s'[j].start, s'[j].end)
      {
        if i == |store| || j == |store| {
          var k := if i == |store| then j else i;
          var seat :| seat in s'[i].seats && seat in s'[j].seats;
          assert seat in seats && seat in store[k].seats;
          assert Overlaps(store[k], start, end) ==> Blocks(store[k], start, end);
        }
      }
    }
  }

  // ---------------------------------------------------------------------
  // Confirm and cancel
  // ---------------------------------------------------------------------

  datatype ConfirmError = IsCancelled | IsExpired

  /**
   The owner confirms a reservation. Only the caller's own reservation is
   found. Cancelled and Expired ones are refused with no change; an Active
   or already Confirmed one becomes Confirmed with `confirmedAt` stamped.
   */
  function Confirm(store: Store, caller: int, id: int, now: int): (r: Step<Store, (), ConfirmError>)
    ensures r.notices == []
    ensures !(IsId(|store|, id) && store[id - 1].owner == caller) ==> r.response.NotFound?
    ensures !r.response.Ok? ==> r.state == store
    ensures IsId(|store|, id) && store[id - 1].owner == caller ==>
      && (store[id - 1].status == Cancelled ==> r.response == BadRequest(IsCancelled))
      && (store[id - 1].status == Expired ==> r.response == BadRequest(IsExpired))
      && (Live(store[id - 1]) ==> r.response.Ok?)
    ensures r.response.Ok? ==>
      && |r.state| == |store|
      && r.state[id - 1] == store[id - 1].(status := Confirmed, confirmedAt := Some(now))
      && forall i :: 0 <= i < |store| && i != id - 1 ==> r.state[i] == store[i]
  {
    if !(IsId(|store|, id) && store[id - 1].owner == caller) then Reject(NotFound, store)
    else
      var res := store[id - 1];
      if res.status == Cancelled then Reject(BadRequest(IsCancelled), store)
      else if res.status == Expired then Reject(BadRequest(IsExpired), store)
      else Step(Ok(()), store[id - 1 := res.(status := Confirmed, confirmedAt := Some(now))], [])
  }

  /** Confirming only ever moves a live reservation to a live status. */
  lemma ConfirmKeepsInvariant(store: Store, caller: int, id: int, now: int)
    requires Invariant(store)
    ensures Invariant(Confirm(store, caller, id, now).state)
  {
    var s' := Confirm(store, caller, id, now).state;
    assert forall i :: 0 <= i < |s'| ==>
      (Live(s'[i]) == Live(store[i]) && s'[i].seats == store[i].seats
       && s'[i].start == store[i].start && s'[i].end == store[i].end);
  }

  datatype CancelError = AlreadyCancelled

  /**
   The owner, or any admin, cancels a reservation. Only an already
   Cancelled one is refused, so an Expired one can still be cancelled. On
   success the status becomes Cancelled with `cancelledAt` stamped, and the
   owner is notified exactly when an admin cancelled someone else's
   reservation.
   */
  function Cancel(store: Store, caller: int, role: string, id: int, now: int): (r: Step<Store, (), CancelError>)
    ensures !(IsId(|store|, id) && (store[id - 1].owner == caller || role == ADMIN)) ==> r.response.NotFound?
    ensures !r.response.Ok? ==> r.state == store && r.notices == []
    ensures IsId(|store|, id) && (store[id - 1].owner == caller || role == ADMIN) ==>
      (store[id - 1].status == Cancelled <==> r.response == BadRequest(AlreadyCancelled))
      && (store[id - 1].status != Cancelled <==> r.response.Ok?)
    ensures r.response.Ok? ==>
      && |r.state| == |store|
      && r.state[id - 1] == store[id - 1].(status := Cancelled, cancelledAt := Some(now))
      && (forall i :: 0 <= i < |store| && i != id - 1 ==> r.state[i] == store[i])
      && (|r.notices| == 1 <==> role == ADMIN && store[id - 1].owner != caller)
      && (r.notices == [] || r.notices == [Notice(store[id - 1].owner, CANCELLED_TITLE, "reservation_cancelled", id)])
  {
    if !(IsId(|store|, id) && (store[id - 1].owner == caller || role == ADMIN)) then Reject(NotFound, store)
    else
      var res := store[id - 1];
      if res.status == Cancelled then Reject(BadRequest(AlreadyCancelled), store)
      else
        var notices := if role == ADMIN && res.owner != caller
          then [Notice(res.owner, CANCELLED_TITLE, "reservation_cancelled", id)] else [];
        Step(Ok(()), store[id - 1 := res.(status := Cancelled, cancelledAt := Some(now))], notices)
  }

  /** Cancelling only ever releases seats. */
  lemma CancelKeepsInvariant(store: Store, caller: int, role: string, id: int, now: int)
    requires Invariant(store)
    ensures Invariant(Cancel(store, caller, role, id, now).state)
  {
    var s' := Cancel(store, caller, role, id, now).state;
    assert forall i :: 0 <= i < |s'| ==>
      ((Live(s'[i]) ==> Live(store[i])) && s'[i].seats == store[i].seats
       && s'[i].start == store[i].start && s'[i].end == store[i].end);
  }

  // ---------------------------------------------------------------------
  // Reminder / expiry sweep
  // ---------------------------------------------------------------------

  /** Starts within the next REMINDER_LEAD seconds and has not been reminded. */
  predicate IsDueReminder(r: Reservation, now: int) {
    r.status == Active && r.reminderSentAt.None? && now < r.start <= now + REMINDER_LEAD
  }

  /** Has started, was reminded, and still is not confirmed. */
  predicate IsDueExpiry(r: Reservation, now: int) {
    r.status == Active && r.start <= now && r.reminderSentAt.Some?
  }

  function DueReminder(now: int): Reservation -> bool {
    (r: Reservation) => IsDueReminder(r, now)
  }

  function DueExpiry(now: int): Reservation -> bool {
    (r: Reservation) => IsDueExpiry(r, now)
  }

  /** One reminder notice per reservation due a reminder, in id order. */
  function ReminderNotices(store: Store, now: int): (ns: seq<Notice>)
    ensures |ns| == CountWhere(store, DueReminder(now))
    decreases |store|
  {
    if |store| == 0 then []
    else
      var last := store[|store| - 1];
      ReminderNotices(store[..|store| - 1], now)
        + (if IsDueReminder(last, now) then [Notice(last.owner, REMINDER_TITLE, "reservation_reminder", |store|)] else [])
  }

  /** One expiry notice per reservation due to expire, in id order. */
  function ExpiryNotices(store: Store, now: int): (ns: seq<Notice>)
    ensures |ns| == CountWhere(store, DueExpiry(now))
    decreases |store|
  {
    if |store| == 0 then []
    else
      var last := store[|store| - 1];
      ExpiryNotices(store[..|store| - 1], now)
        + (if IsDueExpiry(last, now) then [Notice(last.owner, EXPIRED_TITLE, "reservation_cancelled", |store|)] else [])
  }

  /** A reservation is never both due a reminder and due to expire. */
  lemma DueSetsDisjoint(r: Reservation, now: int)
    ensures !(IsDueReminder(r, now) && IsDueExpiry(r, now))
  {
  }

  /** What the reminder pass does to one reservation. */
  function Remind(r: Reservation, now: int): Reservation {
    if IsDueReminder(r, now) then r.(reminderSentAt := Some(now)) else r
  }

  /** What the expiry pass does to one reservation. */
  function Expire(r: Reservation, now: int): Reservation {
    if IsDueExpiry(r, now) then r.(status := Expired) else r
  }

  /** What one sweep does to one reservation: the reminder pass, then the expiry pass. */
  function Tick(r: Reservation, now: int): Reservation {
    Expire(Remind(r, now), now)
  }

  /** What one sweep does to the whole table: each reservation ticked in place. */
  function TickAll(store: Store, now: int): (store': Store)
    ensures |store'| == |store|
    ensures forall i :: 0 <= i < |store| ==> store'[i] == Tick(store[i], now)
  {
    seq(|store|, i requires 0 <= i < |store| => Tick(store[i], now))
  }

  /** Extending the swept prefix by one row adds that row's reminder, if it is due one. */
  lemma RemindStep(store: Store, i: nat, now: int)
    requires i < |store|
    ensures CountWhere(store[..i + 1], DueReminder(now))
         == CountWhere(store[..i], DueReminder(now)) + (if IsDueReminder(store[i], now) then 1 else 0)
    ensures ReminderNotices(store[..i + 1], now) == ReminderNotices(store[..i], now)
      + (if IsDueReminder(store[i], now) then [Notice(store[i].owner, REMINDER_TITLE, "reservation_reminder", i + 1)] else [])
  {
    CountWherePrefix(store, i, DueReminder(now));
    assert store[..i + 1][..i] == store[..i];
  }

  /** Extending the swept prefix by one row adds that row's expiry, if it is due one. */
  lemma ExpireStep(store: Store, i: nat, now: int)
    requires i < |store|
    ensures CountWhere(store[..i + 1], DueExpiry(now))
         == CountWhere(store[..i], DueExpiry(now)) + (if IsDueExpiry(store[i], now) then 1 else 0)
    ensures ExpiryNotices(store[..i + 1], now) == ExpiryNotices(store[..i], now)
      + (if IsDueExpiry(store[i], now) then [Notice(store[i].owner, EXPIRED_TITLE, "reservation_cancelled", i + 1)] else [])
  {
    CountWherePrefix(store, i, DueExpiry(now));
    assert store[..i + 1][..i] == store[..i];
  }

  /**
   The reminder pass: reminds every Active, not yet reminded reservation
   starting within the next 15 minutes and stamps `reminderSentAt`, leaving
   its status alone; it counts them and emits one notice each.
   */
  method RemindPass(store: Store, now: int) returns (reminded: nat, mid: Store, notices: seq<Notice>)
    ensures |mid| == |store|
    ensures forall i :: 0 <= i < |store| ==> mid[i] == Remind(store[i], now)
    ensures reminded == CountWhere(store, DueReminder(now))
    ensures notices == ReminderNotices(store, now)
  {
    mid := store;
    notices := [];
    reminded := 0;
    for i := 0 to |store|
      invariant |mid| == |store|
      invariant forall k :: 0 <= k < i ==> mid[k] == Remind(store[k], now)
      invariant forall k :: i <= k < |store| ==> mid[k] == store[k]
      invariant reminded == CountWhere(store[..i], DueReminder(now))
      invariant notices == ReminderNotices(store[..i], now)
    {
      RemindStep(store, i, now);
      if IsDueReminder(store[i], now) {
        notices := notices + [Notice(store[i].owner, REMINDER_TITLE, "reservation_reminder", i + 1)];
        mid := mid[i := store[i].(reminderSentAt := Some(now))];
        reminded := reminded + 1;
      }
    }
    assert store[..|store|] == store;
  }

  /**
   The expiry pass: expires every Active reservation that has started and
   was reminded; it counts them and emits one notice each.
   */
  method ExpirePass(store: Store, now: int) returns (expired: nat, store': Store, notices: seq<Notice>)
    ensures |store'| == |store|
    ensures forall i :: 0 <= i < |store| ==> store'[i] == Expire(store[i], now)
    ensures expired == CountWhere(store, DueExpiry(now))
    ensures notices == ExpiryNotices(store, now)
  {
    store' := store;
    notices := [];
    expired := 0;
    for i := 0 to |store|
      invariant |store'| == |store|
      invariant forall k :: 0 <= k < i ==> store'[k] == Expire(store[k], now)
      invariant forall k :: i <= k < |store| ==> store'[k] == store[k]
      invariant expired == CountWhere(store[..i], DueExpiry(now))
      invariant notices == ExpiryNotices(store[..i], now)
    {
      ExpireStep(store, i, now);
      if IsDueExpiry(store[i], now) {
        notices := notices + [Notice(store[i].owner, EXPIRED_TITLE, "reservation_cancelled", i + 1)];
        store' := store'[i := store[i].(status := Expired)];
        expired := expired + 1;
      }
    }
    assert store[..|store|] == store;
  }

  /**
   The expiry pass sees the same due set and sends the same notices over
   any table that differs from the original only in rows whose expiry test
   and owner are unchanged, which is what the reminder pass leaves: a
   reminded reservation starts after `now`.
   */
  lemma {:induction false} RemindThenExpire(store: Store, mid: Store, now: int)
    requires |mid| == |store|
    requires forall i :: 0 <= i < |store| ==>
      IsDueExpiry(mid[i], now) == IsDueExpiry(store[i], now) && mid[i].owner == store[i].owner
    ensures CountWhere(mid, DueExpiry(now)) == CountWhere(store, DueExpiry(now))
    ensures ExpiryNotices(mid, now) == ExpiryNotices(store, now)
    decreases |store|
  {
    if |store| > 0 {
      var n := |store| - 1;
      var front, midFront := store[..n], mid[..n];
      RemindThenExpire(front, midFront, now);
      assert DueExpiry(now)(mid[n]) == DueExpiry(now)(store[n]);
    }
  }

  /**
   One tick of the sweep, in the source's two passes, the second over the
   table as the first left it. The counts are the sizes of the two due
   sets, and one notice goes out per reservation touched.
   */
  method Sweep(store: Store, now: int) returns (reminded: nat, expired: nat, store': Store, notices: seq<Notice>)
    ensures store' == TickAll(store, now)
    ensures reminded == CountWhere(store, DueReminder(now))
    ensures expired == CountWhere(store, DueExpiry(now))
    ensures notices == ReminderNotices(store, now) + ExpiryNotices(store, now)
  {
    var mid, reminders;
    reminded, mid, reminders := RemindPass(store, now);
    var expiries;
    expired, store', expiries := ExpirePass(mid, now);
    assert forall i :: 0 <= i < |store| ==>
      IsDueExpiry(mid[i], now) == IsDueExpiry(store[i], now) && mid[i].owner == store[i].owner;
    RemindThenExpire(store, mid, now);
    assert forall i :: 0 <= i < |store| ==> store'[i] == Tick(store[i], now);
    notices := reminders + expiries;
  }

  /**
   The sweep is idempotent: after one tick nothing is due a reminder or an
   expiry at the same `now`, so a second tick changes nothing and counts 0.
   */
  lemma SweepIdempotent(store: Store, now: int)
    ensures TickAll(TickAll(store, now), now) == TickAll(store, now)
    ensures CountWhere(TickAll(store, now), DueReminder(now)) == 0
    ensures CountWhere(TickAll(store, now), DueExpiry(now)) == 0
  {
    var once := TickAll(store, now);
    assert forall i :: 0 <= i < |once| ==> !DueReminder(now)(once[i]) && !DueExpiry(now)(once[i]);
    CountWhereZero(once, DueReminder(now));
    CountWhereZero(once, DueExpiry(now));
  }

  /**
   The sweep keeps the invariant: reminding changes no status, and expiry
   only releases seats, of a reservation that was reminded.
   */
  lemma SweepKeepsInvariant(store: Store, now: int)
    requires Invariant(store)
    ensures Invariant(TickAll(store, now))
  {
    var s' := TickAll(store, now);
    assert forall i :: 0 <= i < |s'| ==>
      ((Live(s'[i]) ==> Live(store[i])) && s'[i].seats == store[i].seats
       && s'[i].start == store[i].start && s'[i].end == store[i].end);
  }

  /**
   The reminder stamp is written at most once, and only on an Active
   reservation: a tick never overwrites an existing stamp.
   */
  lemma ReminderStampedOnce(r: Reservation, now: int)
    ensures r.reminderSentAt.Some? ==> Tick(r, now).reminderSentAt == r.reminderSentAt
    ensures Tick(r, now).reminderSentAt != r.reminderSentAt ==> r.status == Active && r.reminderSentAt.None?
  {
  }
}
