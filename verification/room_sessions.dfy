/** Sequential runs of the room handlers and the expiry sweep over one
    database. Requests are applied one after the other, as if every handler
    ran to completion before the next began; the source takes no lock and
    uses no transaction, so this is the only setting in which the
    non-overlap invariant is claimed. */
module RoomSessions {
  import opened Results
  import opened Rooms
  import opened RoomBookings
  import opened RoomBookingExpiry
  import opened Timetable

  /** The room administration handlers. */
  datatype RoomOp =
    | Add(fields: NewRoom)
    | Deactivate(id: RoomId)
    | Reactivate(id: RoomId)
    | SuspendBooking(id: RoomId)
    | ResumeBooking(id: RoomId)
    | Update(id: RoomId, patch: RoomPatch)

  datatype Command =
    | Book(req: BookingRequest, user: UserId)
    | Cancel(bookingId: nat)
    | Sweep(now: int)
    | Admin(op: RoomOp)

  function ApplyRoomOp(rooms: RoomTable, op: RoomOp): RoomTable {
    match op
    case Add(f) => AddRoom(rooms, f).rooms
    case Deactivate(id) => DeactivateRoom(rooms, id).rooms
    case Reactivate(id) => ReactivateRoom(rooms, id).rooms
    case SuspendBooking(id) => DeactivateRoomBooking(rooms, id).rooms
    case ResumeBooking(id) => ReactivateRoomBooking(rooms, id).rooms
    case Update(id, p) => UpdateRoom(rooms, id, p).rooms
  }

  function Step(db: RoomDb, cmd: Command): RoomDb {
    match cmd
    case Book(req, user) => CreateRoomBooking(db, req, user).db
    case Cancel(id) => CancelRoomBooking(db, id).db
    case Sweep(now) => SweepRoomBookings(db, now)
    case Admin(op) => db.(rooms := ApplyRoomOp(db.rooms, op))
  }

  function Run(db: RoomDb, cmds: seq<Command>): RoomDb
    decreases |cmds|
  {
    if |cmds| == 0 then db else Run(Step(db, cmds[0]), cmds[1..])
  }

  /** The database before any request: no room, booking, entry or counter. */
  lemma EmptyDbIsValid(timetable: seq<TimetableEntry>)
    ensures Valid(RoomDb(map[], [], timetable, None))
  {
  }

  /** One step keeps the invariant, whatever the command and its outcome. */
  lemma StepKeepsValid(db: RoomDb, cmd: Command)
    requires Valid(db)
    ensures Valid(Step(db, cmd))
  {
    match cmd
    case Book(req, user) => CreateKeepsValid(db, req, user);
    case Cancel(id) => CancelKeepsValid(db, id);
    case Sweep(now) => ExpiryKeepsValid(db, now);
    case Admin(op) =>
  }

  /** Any sequential run keeps the invariant: active bookings of a room stay
      pairwise non-overlapping and booking numbers stay unique. */
  lemma {:induction false} RunKeepsValid(db: RoomDb, cmds: seq<Command>)
    requires Valid(db)
    ensures Valid(Run(db, cmds))
    decreases |cmds|
  {
    if |cmds| > 0 {
      StepKeepsValid(db, cmds[0]);
      RunKeepsValid(Step(db, cmds[0]), cmds[1..]);
    }
  }

  /** Bookings are never removed and only their status ever changes; the
      counter never goes back. */
  lemma {:induction false} RunOnlyChangesStatus(db: RoomDb, cmds: seq<Command>)
    ensures |Run(db, cmds).bookings| >= |db.bookings|
    ensures forall i | 0 <= i < |db.bookings| ::
      Run(db, cmds).bookings[i] == db.bookings[i].(status := Run(db, cmds).bookings[i].status)
    ensures CounterValue(Run(db, cmds).counter) >= CounterValue(db.counter)
    decreases |cmds|
  {
    if |cmds| > 0 {
      var next := Step(db, cmds[0]);
      assert |next.bookings| >= |db.bookings|;
      assert forall i | 0 <= i < |db.bookings| :: next.bookings[i] == db.bookings[i].(status := next.bookings[i].status) by {
        match cmds[0]
        case Book(req, user) =>
          var r := CreateRoomBooking(db, req, user);
          if r.result.Ok? {
            assert next.bookings == db.bookings + [r.result.value];
          }
        case Cancel(id) =>
        case Sweep(now) =>
        case Admin(op) =>
      }
      RunOnlyChangesStatus(next, cmds[1..]);
    }
  }
}
