/** Room bookings: the booking-number counter, the admission of a new
    booking, cancellation and the admin listing
    (backend/src/modules/room/roomBooking.controller.js), together with the
    booking schema and its pre-validate hook
    (backend/src/modules/room/roomBooking.model.js).

    The database is an in-memory value: the rooms table, the bookings in
    insertion order (a booking's id is its position; bookings are never
    deleted), the timetable entries and the counter document. The weekday
    and minutes-of-day of a request are part of the request, since the
    source derives them from the server's local clock. */
module RoomBookings {
  import opened Results
  import opened Rooms
  import opened Timetable

  /** Minutes since midnight, `getHours() * 60 + getMinutes()`. */
  type MinuteOfDay = m: int | 0 <= m < 1440

  /** The status domain of the schema; a new booking defaults to `Active`. */
  datatype BookingStatus = Active | Cancelled | Expired

  function StatusName(s: BookingStatus): string {
    match s
    case Active => "active"
    case Cancelled => "cancelled"
    case Expired => "expired"
  }

  datatype RoomBooking = RoomBooking(
    bookingNumber: int,
    roomId: RoomId,
    roomType: string,
    bookedBy: UserId,
    start: int,
    end: int,
    status: BookingStatus)

  datatype BookingRequest = BookingRequest(
    roomId: RoomId,
    start: int,
    end: int,
    startDay: string,
    startMinutes: MinuteOfDay,
    endMinutes: MinuteOfDay)

  datatype RoomDb = RoomDb(
    rooms: RoomTable,
    bookings: seq<RoomBooking>,
    timetable: seq<TimetableEntry>,
    counter: Option<int>)

  datatype BookingError =
    | InvalidInterval    // 400 "End time must be after start time"
    | RoomAlreadyBooked  // 409 "Room already booked for this time slot"
    | ScheduledClass     // 409 "Room has a scheduled class during this time"
    | UnknownRoom        // 500, thrown by the pre-validate hook
    | RoomTypeRequired   // 500, the schema's `required` validator on roomType
    | BookingNotFound    // 404 "Booking not found"

  function HttpStatus(e: BookingError): int {
    match e
    case InvalidInterval => 400
    case RoomAlreadyBooked => 409
    case ScheduledClass => 409
    case UnknownRoom => 500
    case RoomTypeRequired => 500
    case BookingNotFound => 404
  }

  datatype BookingReply = BookingReply(db: RoomDb, result: Result<RoomBooking, BookingError>)

  // ---------------------------------------------------------------------
  // The booking-number counter
  // ---------------------------------------------------------------------

  /** The stored `seq` of the counter document; an absent document reads as 0. */
  function CounterValue(c: Option<int>): int {
    if c.Some? then c.value else 0
  }

  /** `getNextBookingNumber`: an atomic increment with upsert, returning the
      new value, which the counter then holds. */
  function NextBookingNumber(c: Option<int>): (r: (int, Option<int>))
    ensures r.0 > CounterValue(c)
    ensures c.None? ==> r.0 == 1
    ensures r.1 == Some(r.0) && CounterValue(r.1) == r.0
  {
    var n := CounterValue(c) + 1;
    (n, Some(n))
  }

  /** The numbers handed out by `k` successive calls, starting from `c`. */
  function Draws(c: Option<int>, k: nat): seq<int>
    decreases k
  {
    if k == 0 then [] else
      var (n, c') := NextBookingNumber(c);
      [n] + Draws(c', k - 1)
  }

  /** Successive calls hand out consecutive, hence strictly increasing and
      pairwise distinct, numbers above the stored value. */
  lemma {:induction false} DrawsAreConsecutive(c: Option<int>, k: nat)
    ensures |Draws(c, k)| == k
    ensures forall i | 0 <= i < k :: Draws(c, k)[i] == CounterValue(c) + 1 + i
    ensures forall i, j | 0 <= i < j < k :: Draws(c, k)[i] < Draws(c, k)[j]
    decreases k
  {
    if k > 0 {
      var (n, c') := NextBookingNumber(c);
      DrawsAreConsecutive(c', k - 1);
      var d := Draws(c, k);
      assert d == [n] + Draws(c', k - 1);
      forall i | 0 <= i < k
        ensures d[i] == CounterValue(c) + 1 + i
      {
        if i > 0 {
          assert d[i] == Draws(c', k - 1)[i - 1];
        }
      }
    }
  }

  // ---------------------------------------------------------------------
  // The admission checks
  // ---------------------------------------------------------------------

  /** Half-open interval overlap: touching endpoints do not overlap. */
  predicate Overlaps(s1: int, e1: int, s2: int, e2: int) {
    s1 < e2 && e1 > s2
  }

  /** The overlap query: an active booking of the same room whose interval
      overlaps the requested one. */
  predicate Blocks(b: RoomBooking, roomId: RoomId, start: int, end: int) {
    b.roomId == roomId && b.status == Active && Overlaps(b.start, b.end, start, end)
  }

  /** `RoomBooking.findOne(...)` with the overlap query: the position of the
      first blocking booking, if any. */
  function FindBlocking(bs: seq<RoomBooking>, roomId: RoomId, start: int, end: int): (r: Option<nat>)
    ensures r.Some? ==> r.value < |bs| && Blocks(bs[r.value], roomId, start, end)
    ensures r.Some? ==> forall i | 0 <= i < r.value :: !Blocks(bs[i], roomId, start, end)
    ensures r.None? <==> forall i | 0 <= i < |bs| :: !Blocks(bs[i], roomId, start, end)
  {
    if |bs| == 0 then None
    else if Blocks(bs[0], roomId, start, end) then Some(0)
    else
      match FindBlocking(bs[1..], roomId, start, end)
      case None => None
      case Some(i) => Some(i + 1)
  }

  /** An entry of the requested room on the start's weekday clashes. */
  predicate ClassClash(e: TimetableEntry, req: BookingRequest) {
    e.roomId == req.roomId && e.dayOfWeek == req.startDay
    && EntryClash(e, req.startMinutes, req.endMinutes)
  }

  /** `timetableEntries.some(...)` over the entries of the room and weekday. */
  function AnyClassClash(entries: seq<TimetableEntry>, req: BookingRequest): (r: bool)
    ensures r <==> exists i | 0 <= i < |entries| :: ClassClash(entries[i], req)
  {
    if |entries| == 0 then false
    else ClassClash(entries[0], req) || AnyClassClash(entries[1..], req)
  }

  // ---------------------------------------------------------------------
  // The pre-validate hook
  // ---------------------------------------------------------------------

  /** The pre-validate hook: a set `roomType` is kept; an empty one is copied
      from the room with the booking's `roomId`, active or not, and a missing
      room aborts validation. */
  function FillRoomType(roomType: string, roomId: RoomId, rooms: RoomTable): (r: Result<string, BookingError>)
    ensures roomType != "" ==> r == Ok(roomType)
    ensures roomType == "" ==> (r.Err? <==> roomId !in rooms)
    ensures roomType == "" && r.Ok? ==> r.value == rooms[roomId].roomType
    ensures r.Err? ==> r.error == UnknownRoom
  {
    if roomType != "" then Ok(roomType)
    else if roomId !in rooms then Err(UnknownRoom)
    else Ok(rooms[roomId].roomType)
  }

  /** Running the hook on its own output changes nothing. */
  lemma FillRoomTypeIdempotent(roomType: string, roomId: RoomId, rooms: RoomTable)
    requires FillRoomType(roomType, roomId, rooms).Ok?
    ensures FillRoomType(FillRoomType(roomType, roomId, rooms).value, roomId, rooms)
         == FillRoomType(roomType, roomId, rooms)
  {
  }

  // ---------------------------------------------------------------------
  // createRoomBooking
  // ---------------------------------------------------------------------

  /** The three admission checks pass. */
  predicate Admissible(db: RoomDb, req: BookingRequest) {
    && req.start < req.end
    && (forall i | 0 <= i < |db.bookings| :: !Blocks(db.bookings[i], req.roomId, req.start, req.end))
    && !(exists i | 0 <= i < |db.timetable| :: ClassClash(db.timetable[i], req))
  }

  /** `createRoomBooking`: the interval check, then the overlap check, then
      the timetable check; only then a number is drawn and the booking is
      created. The creation itself runs the pre-validate hook and the
      schema's `required` check, which can still fail after the number was
      drawn. The room's `isActive` and `isBookable` flags are not consulted. */
  function CreateRoomBooking(db: RoomDb, req: BookingRequest, user: UserId): (r: BookingReply)
    ensures r.result == Err(InvalidInterval) <==> req.start >= req.end
    ensures r.result == Err(RoomAlreadyBooked) <==>
      req.start < req.end
      && exists i | 0 <= i < |db.bookings| :: Blocks(db.bookings[i], req.roomId, req.start, req.end)
    ensures r.result == Err(ScheduledClass) <==>
      && req.start < req.end
      && (forall i | 0 <= i < |db.bookings| :: !Blocks(db.bookings[i], req.roomId, req.start, req.end))
      && exists i | 0 <= i < |db.timetable| :: ClassClash(db.timetable[i], req)
    // a request turned down by one of the three checks changes nothing,
    // in particular it does not consume a booking number
    ensures r.result in {Err(InvalidInterval), Err(RoomAlreadyBooked), Err(ScheduledClass)} ==> r.db == db
    // once the three admission checks pass, a number is consumed whatever happens next
    ensures Admissible(db, req) ==>
      r.db.counter == Some(CounterValue(db.counter) + 1)
      && r.db.rooms == db.rooms && r.db.timetable == db.timetable
    ensures Admissible(db, req) && req.roomId !in db.rooms ==>
      r.result == Err(UnknownRoom) && r.db.bookings == db.bookings
    ensures Admissible(db, req) && req.roomId in db.rooms && db.rooms[req.roomId].roomType == "" ==>
      r.result == Err(RoomTypeRequired) && r.db.bookings == db.bookings
    ensures r.result.Ok? <==>
      Admissible(db, req) && req.roomId in db.rooms && db.rooms[req.roomId].roomType != ""
    ensures r.result.Ok? ==>
      var b := r.result.value;
      && r.db.bookings == db.bookings + [b]
      && b.roomId == req.roomId && b.bookedBy == user
      && b.start == req.start && b.end == req.end
      && b.status == Active
      && b.roomType == db.rooms[req.roomId].roomType
      && b.bookingNumber == CounterValue(db.counter) + 1
  {
    if req.start >= req.end then
      BookingReply(db, Err(InvalidInterval))
    else if FindBlocking(db.bookings, req.roomId, req.start, req.end).Some? then
      BookingReply(db, Err(RoomAlreadyBooked))
    else if AnyClassClash(db.timetable, req) then
      BookingReply(db, Err(ScheduledClass))
    else
      var (n, counter) := NextBookingNumber(db.counter);
      var db1 := db.(counter := counter);
      match FillRoomType("", req.roomId, db.rooms)
      case Err(e) => BookingReply(db1, Err(e))
      case Ok(roomType) =>
        if roomType == "" then BookingReply(db1, Err(RoomTypeRequired))
        else
          var b := RoomBooking(n, req.roomId, roomType, user, req.start, req.end, Active);
          BookingReply(db1.(bookings := db.bookings + [b]), Ok(b))
  }

  /** The status code of a refused booking tells whether a number was
      consumed: the three admission checks answer 400 or 409 and leave the
      database as it was; a failure past them is a 500 and has advanced the
      counter. */
  lemma CreateErrorStatus(db: RoomDb, req: BookingRequest, user: UserId)
    requires CreateRoomBooking(db, req, user).result.Err?
    ensures var r := CreateRoomBooking(db, req, user);
      && (HttpStatus(r.result.error) == 500 <==> Admissible(db, req))
      && (HttpStatus(r.result.error) == 400 <==> req.start >= req.end)
      && (HttpStatus(r.result.error) < 500 <==> r.db == db)
  {
  }

  // ---------------------------------------------------------------------
  // cancelRoomBooking
  // ---------------------------------------------------------------------

  /** `cancelRoomBooking`: an unknown id is 404; otherwise the status becomes
      `Cancelled`, whatever it was and whoever asks. */
  function CancelRoomBooking(db: RoomDb, id: nat): (r: BookingReply)
    ensures r.result.Err? <==> id >= |db.bookings|
    ensures r.result.Err? ==> r == BookingReply(db, Err(BookingNotFound))
    ensures r.result.Ok? ==>
      && r.db.rooms == db.rooms && r.db.timetable == db.timetable && r.db.counter == db.counter
      && |r.db.bookings| == |db.bookings|
      && r.result.value == r.db.bookings[id]
      && r.db.bookings[id].status == Cancelled
      && r.db.bookings[id] == db.bookings[id].(status := Cancelled)
      && (forall j | 0 <= j < |db.bookings| && j != id :: r.db.bookings[j] == db.bookings[j])
  {
    if id >= |db.bookings| then BookingReply(db, Err(BookingNotFound))
    else
      var b := db.bookings[id].(status := Cancelled);
      BookingReply(db.(bookings := db.bookings[id := b]), Ok(b))
  }

  /** Cancelling twice leaves the same database as cancelling once. */
  lemma CancelIdempotent(db: RoomDb, id: nat)
    ensures CancelRoomBooking(CancelRoomBooking(db, id).db, id).db == CancelRoomBooking(db, id).db
  {
  }

  /** A cancelled booking never blocks a later request. */
  lemma CancelledNeverBlocks(db: RoomDb, id: nat, start: int, end: int)
    requires id < |db.bookings|
    ensures !Blocks(CancelRoomBooking(db, id).db.bookings[id], db.bookings[id].roomId, start, end)
  {
  }

  // ---------------------------------------------------------------------
  // getAllRoomBookings
  // ---------------------------------------------------------------------

  /** The listing filter: a non-empty `status` must match exactly; `bookedBy`
      "me" keeps the caller's bookings, "others" everybody else's, and any
      other value (or none) applies no user filter. */
  predicate Listed(b: RoomBooking, status: string, bookedBy: string, caller: UserId) {
    && (status == "" || StatusName(b.status) == status)
    && (bookedBy == "me" ==> b.bookedBy == caller)
    && (bookedBy == "others" ==> b.bookedBy != caller)
  }

  /** `RoomBooking.find(filter)`: the listed bookings in stored order. */
  function ListRoomBookings(bs: seq<RoomBooking>, status: string, bookedBy: string, caller: UserId)
    : (r: seq<RoomBooking>)
    ensures |r| <= |bs|
    ensures forall b :: b in r <==> b in bs && Listed(b, status, bookedBy, caller)
  {
    if |bs| == 0 then []
    else
      var rest := ListRoomBookings(bs[1..], status, bookedBy, caller);
      assert forall b :: b in bs <==> b == bs[0] || b in bs[1..];
      if Listed(bs[0], status, bookedBy, caller) then [bs[0]] + rest else rest
  }

  /** "me" and "others" split the unfiltered listing between them. */
  lemma {:induction false} MeAndOthersPartition(bs: seq<RoomBooking>, status: string, caller: UserId)
    ensures |ListRoomBookings(bs, status, "me", caller)| + |ListRoomBookings(bs, status, "others", caller)|
         == |ListRoomBookings(bs, status, "", caller)|
  {
    if |bs| > 0 {
      MeAndOthersPartition(bs[1..], status, caller);
    }
  }

  // ---------------------------------------------------------------------
  // The database invariant
  // ---------------------------------------------------------------------

  /** Active bookings of one room are pairwise non-overlapping. */
  predicate NoActiveOverlap(bs: seq<RoomBooking>) {
    forall i, j | 0 <= i < j < |bs| ::
      !(bs[i].roomId == bs[j].roomId && bs[i].status == Active && bs[j].status == Active
        && Overlaps(bs[i].start, bs[i].end, bs[j].start, bs[j].end))
  }

  /** The counter is not negative, every stored booking is well formed and
      numbered from 1 up to the counter,
      booking numbers are unique (the schema's unique index), and active
      bookings of one room do not overlap. */
  predicate Valid(db: RoomDb) {
    && CounterValue(db.counter) >= 0
    && (forall i | 0 <= i < |db.bookings| ::
          && db.bookings[i].start < db.bookings[i].end
          && 1 <= db.bookings[i].bookingNumber <= CounterValue(db.counter)
          && db.bookings[i].roomType != "")
    && (forall i, j | 0 <= i < j < |db.bookings| ::
          db.bookings[i].bookingNumber != db.bookings[j].bookingNumber)
    && NoActiveOverlap(db.bookings)
  }

  /** A successful admission keeps the invariant: the new booking overlaps
      no active booking of its room, and its number is fresh. */
  lemma CreateKeepsValid(db: RoomDb, req: BookingRequest, user: UserId)
    requires Valid(db)
    ensures Valid(CreateRoomBooking(db, req, user).db)
  {
    var r := CreateRoomBooking(db, req, user);
    if r.result.Ok? {
      var b := r.result.value;
      var bs := r.db.bookings;
      var n := |db.bookings|;
      assert bs == db.bookings + [b];
      forall i | 0 <= i < |bs|
        ensures bs[i].start < bs[i].end
        ensures 1 <= bs[i].bookingNumber <= CounterValue(r.db.counter)
        ensures bs[i].roomType != ""
      {
        if i < n {
          assert bs[i] == db.bookings[i];
        }
      }
      forall i, j | 0 <= i < j < |bs|
        ensures !(bs[i].roomId == bs[j].roomId && bs[i].status == Active && bs[j].status == Active
                  && Overlaps(bs[i].start, bs[i].end, bs[j].start, bs[j].end))
        ensures bs[i].bookingNumber != bs[j].bookingNumber
      {
        if j == n {
          assert bs[i] == db.bookings[i];
          assert !Blocks(db.bookings[i], req.roomId, req.start, req.end);
        }
      }
    }
  }

  /** Cancellation keeps the invariant. */
  lemma CancelKeepsValid(db: RoomDb, id: nat)
    requires Valid(db)
    ensures Valid(CancelRoomBooking(db, id).db)
  {
    var r := CancelRoomBooking(db, id);
    if r.result.Ok? {
      var bs := r.db.bookings;
      forall i, j | 0 <= i < j < |bs|
        ensures !(bs[i].roomId == bs[j].roomId && bs[i].status == Active && bs[j].status == Active
                  && Overlaps(bs[i].start, bs[i].end, bs[j].start, bs[j].end))
      {
        if i != id && j != id {
          assert bs[i] == db.bookings[i] && bs[j] == db.bookings[j];
        }
      }
    }
  }
}
