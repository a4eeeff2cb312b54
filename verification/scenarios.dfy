/**
 Worked examples of the reservation rules on concrete data. Times are
 seconds from a fixed midnight; "tomorrow" starts at one DAY.
 */
module Scenarios {
  import opened Common
  import opened Reservations

  const TOMORROW := DAY

  /** A solo booking of A1 from 14:00 to 15:00 tomorrow, made at midnight. */
  function FirstBooking(): Step<Store, nat, CreateError> {
    Create([], 7, SOLO, TOMORROW + 14 * HOUR, TOMORROW + 15 * HOUR, ["A1"], None, 0)
  }

  /**
   The first booking succeeds as reservation 1; a second booking of A1
   inside its window is refused naming exactly A1.
   */
  lemma DoubleBookingRefused()
    ensures FirstBooking().response == Ok(1)
    ensures FirstBooking().state[0].status == Active
    ensures Create(FirstBooking().state, 8, SOLO, TOMORROW + 14 * HOUR + 30 * MINUTE,
                   TOMORROW + 14 * HOUR + 45 * MINUTE, ["A1"], None, 0).response
            == BadRequest(SeatsTaken({"A1"}))
  {
    var s := FirstBooking().state;
    var r := Create(s, 8, SOLO, TOMORROW + 14 * HOUR + 30 * MINUTE, TOMORROW + 14 * HOUR + 45 * MINUTE, ["A1"], None, 0);
    assert Blocks(s[0], TOMORROW + 14 * HOUR + 30 * MINUTE, TOMORROW + 14 * HOUR + 45 * MINUTE);
    assert "A1" in s[0].seats;
    assert !r.response.Ok?;
    var taken := r.response.error.seats;
    assert "A1" in taken;
    assert forall x :: x in taken ==> x == "A1";
    assert taken == {"A1"};
  }

  /**
   A request from a known caller that passes validation is accepted when
   every reservation ends by its start or begins at or after its end.
   */
  lemma FreeWindowAccepted(store: Store, caller: int, kind: string, start: int, end: int,
                           seats: seq<string>, now: int)
    requires caller != ANONYMOUS && Admissible(kind, start, end, seats, now)
    requires forall i :: 0 <= i < |store| ==> store[i].end <= start || store[i].start >= end
    ensures Create(store, caller, kind, start, end, seats, None, now).response.Ok?
  {
    forall i, s | 0 <= i < |store| && s in store[i].seats
      ensures !Blocks(store[i], start, end)
    {
    }
  }

  /** Back-to-back windows do not overlap: the half-open end is free. */
  lemma BackToBackAllowed()
    ensures Create(FirstBooking().state, 8, SOLO, TOMORROW + 15 * HOUR, TOMORROW + 16 * HOUR, ["A1"], None, 0)
            .response.Ok?
  {
    var s := FirstBooking().state;
    assert s == [NewReservation(7, SOLO, TOMORROW + 14 * HOUR, TOMORROW + 15 * HOUR, ["A1"], None, 0)];
    FreeWindowAccepted(s, 8, SOLO, TOMORROW + 15 * HOUR, TOMORROW + 16 * HOUR, ["A1"], 0);
  }

  /** A group window of two hours and one minute breaks the group cap; exactly two hours passes. */
  lemma GroupCapBoundary()
    ensures Create([], 7, GROUP, TOMORROW, TOMORROW + 2 * HOUR + MINUTE, ["B1", "B2"], None, 0).response
            == BadRequest(Rejected(GroupTooLong))
    ensures Create([], 7, GROUP, TOMORROW, TOMORROW + 2 * HOUR, ["B1", "B2"], None, 0).response.Ok?
  {
  }

  /**
   The owner can confirm twice: the source refuses only Cancelled and
   Expired reservations, so the second confirm succeeds and re-stamps.
   */
  lemma ConfirmTwiceAllowed()
    ensures var s := Confirm(FirstBooking().state, 7, 1, 10).state;
      Confirm(s, 7, 1, 20).response.Ok? && Confirm(s, 7, 1, 20).state[0].confirmedAt == Some(20)
  {
  }

  /**
   Ten minutes before the start the sweep reminds and keeps the booking
   Active; once the start has passed it expires the reminded booking.
   */
  lemma ReminderThenExpiry()
    ensures var now := TOMORROW + 14 * HOUR - 10 * MINUTE;
      var s := TickAll(FirstBooking().state, now);
      s[0].status == Active && s[0].reminderSentAt == Some(now)
      && TickAll(s, now) == s
      && TickAll(s, TOMORROW + 14 * HOUR)[0].status == Expired
  {
  }
}
