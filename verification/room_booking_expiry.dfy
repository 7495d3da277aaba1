/** The room-booking expiry sweep (backend/src/jobs/roomBookingStatus.job.js):
    at one instant `now`, every active booking whose end is not after `now`
    becomes expired. Nothing but the status of those bookings is written. */
module RoomBookingExpiry {
  import opened RoomBookings

  /** The sweep's query: `status: "active", endTime: { $lte: now }`. */
  predicate IsDue(b: RoomBooking, now: int) {
    b.status == Active && b.end <= now
  }

  /** The sweep over the stored bookings, one document at a time. */
  function ExpireBookings(bs: seq<RoomBooking>, now: int): (r: seq<RoomBooking>)
    ensures |r| == |bs|
    ensures forall i | 0 <= i < |bs| && IsDue(bs[i], now) :: r[i] == bs[i].(status := Expired)
    ensures forall i | 0 <= i < |bs| && !IsDue(bs[i], now) :: r[i] == bs[i]
  {
    if |bs| == 0 then []
    else
      var b := if IsDue(bs[0], now) then bs[0].(status := Expired) else bs[0];
      [b] + ExpireBookings(bs[1..], now)
  }

  /** One tick of the job over the whole database. */
  function SweepRoomBookings(db: RoomDb, now: int): (r: RoomDb)
    ensures r.rooms == db.rooms && r.timetable == db.timetable && r.counter == db.counter
    ensures |r.bookings| == |db.bookings|
    ensures forall i | 0 <= i < |db.bookings| ::
      r.bookings[i].status == (if IsDue(db.bookings[i], now) then Expired else db.bookings[i].status)
    ensures forall i | 0 <= i < |db.bookings| ::
      r.bookings[i] == db.bookings[i].(status := r.bookings[i].status)
  {
    db.(bookings := ExpireBookings(db.bookings, now))
  }

  /** The boundary: a booking ending exactly at `now` is expired; one ending
      later stays active; cancelled and expired bookings are untouched. */
  lemma ExpiryBoundary(db: RoomDb, now: int, i: nat)
    requires i < |db.bookings|
    ensures db.bookings[i].status == Active && db.bookings[i].end == now ==>
      SweepRoomBookings(db, now).bookings[i].status == Expired
    ensures db.bookings[i].status == Active && db.bookings[i].end > now ==>
      SweepRoomBookings(db, now).bookings[i].status == Active
    ensures db.bookings[i].status != Active ==>
      SweepRoomBookings(db, now).bookings[i] == db.bookings[i]
  {
  }

  /** A second sweep at the same instant finds nothing left to do. */
  lemma ExpiryIdempotent(db: RoomDb, now: int)
    ensures SweepRoomBookings(SweepRoomBookings(db, now), now) == SweepRoomBookings(db, now)
  {
    var once := SweepRoomBookings(db, now);
    var twice := SweepRoomBookings(once, now);
    assert twice.bookings == once.bookings;
  }

  /** Expiry only retires active bookings, so the invariant is kept. */
  lemma ExpiryKeepsValid(db: RoomDb, now: int)
    requires Valid(db)
    ensures Valid(SweepRoomBookings(db, now))
  {
    var bs := SweepRoomBookings(db, now).bookings;
    forall i, j | 0 <= i < j < |bs|
      ensures !(bs[i].roomId == bs[j].roomId && bs[i].status == Active && bs[j].status == Active
                && Overlaps(bs[i].start, bs[i].end, bs[j].start, bs[j].end))
    {
      if bs[i].status == Active && bs[j].status == Active {
        assert bs[i] == db.bookings[i] && bs[j] == db.bookings[j];
      }
    }
  }
}
