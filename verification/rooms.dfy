/** Rooms and their two independent flags (backend/src/modules/room/room.controller.js).

    `isActive` is a soft delete; `isBookable` suspends booking. The handlers
    that look a room up by id for reading or changing it treat a room that
    is not active as missing; `getAllRooms`, `reactivateRoom`, the duplicate
    check of `addRoom` and the room-type lookup of the booking hook
    (backend/src/modules/room/roomBooking.model.js) still see it. The rooms
    collection is a table keyed by `roomId`. */
module Rooms {
  import opened Results

  type RoomId = string

  datatype Room = Room(
    roomId: RoomId,
    location: string,
    roomType: string,
    capacity: int,
    facilities: Option<seq<string>>,
    department: Option<string>,
    isActive: bool,
    isBookable: bool)

  type RoomTable = map<RoomId, Room>

  /** Every room is stored under its own `roomId`. */
  predicate KeysMatch(rooms: RoomTable) {
    forall id | id in rooms :: rooms[id].roomId == id
  }

  /** The error responses of the room handlers. */
  datatype RoomError =
    | MissingFields         // 400 "Missing required room fields"
    | DuplicateRoom         // 409 "Room with this roomId already exists"
    | RoomNotFound          // 404 "Room not found" (or "... inactive")
    | AlreadyActive         // 400 "Room is already active"
    | BookingAlreadyActive  // 400 "Room booking is already active"

  function HttpStatus(e: RoomError): int {
    match e
    case MissingFields => 400
    case DuplicateRoom => 409
    case RoomNotFound => 404
    case AlreadyActive => 400
    case BookingAlreadyActive => 400
  }

  /** The table after a handler ran, and its response. */
  datatype RoomReply = RoomReply(rooms: RoomTable, result: Result<Room, RoomError>)

  /** The body of an `addRoom` request; `None` is a field left undefined. */
  datatype NewRoom = NewRoom(
    roomId: Option<string>,
    location: Option<string>,
    roomType: Option<string>,
    capacity: Option<int>,
    facilities: Option<seq<string>>,
    department: Option<string>)

  /** The fields an `updateRoom` request may carry; `None` is left undefined. */
  datatype RoomPatch = RoomPatch(
    location: Option<string>,
    roomType: Option<string>,
    capacity: Option<int>,
    facilities: Option<seq<string>>,
    department: Option<string>,
    isBookable: Option<bool>)

  /** A room that exists and has not been soft-deleted. */
  predicate IsActiveRoom(rooms: RoomTable, id: RoomId) {
    id in rooms && rooms[id].isActive
  }

  function OrElse<T>(o: Option<T>, fallback: T): T {
    if o.Some? then o.value else fallback
  }

  // ---------------------------------------------------------------------
  // addRoom
  // ---------------------------------------------------------------------

  /** `addRoom`: field validation first, then the duplicate check, then the
      insert of an active, bookable room. */
  function AddRoom(rooms: RoomTable, f: NewRoom): (r: RoomReply)
    ensures r.result == Err(MissingFields) <==>
      || f.roomId.None? || f.roomId.value == ""
      || f.roomType.None? || f.roomType.value == ""
      || f.capacity.None? || f.capacity.value == 0
      || f.location.None?
    ensures r.result == Err(DuplicateRoom) <==>
      r.result != Err(MissingFields) && f.roomId.Some? && f.roomId.value in rooms
    ensures r.result.Ok? <==>
      && Truthy(f.roomId) && f.location.Some? && Truthy(f.roomType)
      && f.capacity.Some? && f.capacity.value != 0
      && f.roomId.value !in rooms
    ensures r.result.Err? ==> r.rooms == rooms
    ensures r.result.Ok? ==>
      var room := r.result.value;
      && room.roomId !in rooms
      && r.rooms.Keys == rooms.Keys + {room.roomId}
      && r.rooms[room.roomId] == room
      && (forall id | id in rooms :: r.rooms[id] == rooms[id])
      && Some(room.roomId) == f.roomId && Some(room.location) == f.location
      && Some(room.roomType) == f.roomType && Some(room.capacity) == f.capacity
      && room.facilities == f.facilities && room.department == f.department
      && room.isActive && room.isBookable
    ensures KeysMatch(rooms) ==> KeysMatch(r.rooms)
  {
    if !Truthy(f.roomId) || f.location.None? || !Truthy(f.roomType)
       || f.capacity.None? || f.capacity.value == 0 then
      RoomReply(rooms, Err(MissingFields))
    else if f.roomId.value in rooms then
      RoomReply(rooms, Err(DuplicateRoom))
    else
      var room := Room(f.roomId.value, f.location.value, f.roomType.value, f.capacity.value,
                       f.facilities, f.department, true, true);
      RoomReply(rooms[room.roomId := room], Ok(room))
  }

  // ---------------------------------------------------------------------
  // The four flag transitions
  // ---------------------------------------------------------------------

  /** `deactivateRoom`: soft-deletes an active room; `isBookable` is kept. */
  function DeactivateRoom(rooms: RoomTable, id: RoomId): (r: RoomReply)
    ensures r.result.Ok? <==> IsActiveRoom(rooms, id)
    ensures r.result.Err? ==> r == RoomReply(rooms, Err(RoomNotFound))
    ensures r.result.Ok? ==>
      && r.rooms.Keys == rooms.Keys
      && r.result.value == r.rooms[id]
      && !r.rooms[id].isActive
      && r.rooms[id].isBookable == rooms[id].isBookable
      && r.rooms[id] == rooms[id].(isActive := r.rooms[id].isActive)
      && (forall other | other in rooms && other != id :: r.rooms[other] == rooms[other])
  {
    if !IsActiveRoom(rooms, id) then RoomReply(rooms, Err(RoomNotFound))
    else
      var room := rooms[id].(isActive := false);
      RoomReply(rooms[id := room], Ok(room))
  }

  /** `reactivateRoom`: the one handler by id that finds an inactive room. */
  function ReactivateRoom(rooms: RoomTable, id: RoomId): (r: RoomReply)
    ensures id !in rooms ==> r == RoomReply(rooms, Err(RoomNotFound))
    ensures IsActiveRoom(rooms, id) ==> r == RoomReply(rooms, Err(AlreadyActive))
    ensures r.result.Ok? <==> id in rooms && !rooms[id].isActive
    ensures r.result.Ok? ==>
      && r.rooms.Keys == rooms.Keys
      && r.result.value == r.rooms[id]
      && r.rooms[id].isActive
      && r.rooms[id].isBookable == rooms[id].isBookable
      && r.rooms[id] == rooms[id].(isActive := r.rooms[id].isActive)
      && (forall other | other in rooms && other != id :: r.rooms[other] == rooms[other])
  {
    if id !in rooms then RoomReply(rooms, Err(RoomNotFound))
    else if rooms[id].isActive then RoomReply(rooms, Err(AlreadyActive))
    else
      var room := rooms[id].(isActive := true);
      RoomReply(rooms[id := room], Ok(room))
  }

  /** `deactivateRoomBooking`: suspends booking of an active room; a room
      that is already suspended is not an error. */
  function DeactivateRoomBooking(rooms: RoomTable, id: RoomId): (r: RoomReply)
    ensures r.result.Ok? <==> IsActiveRoom(rooms, id)
    ensures r.result.Err? ==> r == RoomReply(rooms, Err(RoomNotFound))
    ensures r.result.Ok? ==>
      && r.rooms.Keys == rooms.Keys
      && r.result.value == r.rooms[id]
      && !r.rooms[id].isBookable
      && r.rooms[id].isActive
      && r.rooms[id] == rooms[id].(isBookable := r.rooms[id].isBookable)
      && (forall other | other in rooms && other != id :: r.rooms[other] == rooms[other])
  {
    if !IsActiveRoom(rooms, id) then RoomReply(rooms, Err(RoomNotFound))
    else
      var room := rooms[id].(isBookable := false);
      RoomReply(rooms[id := room], Ok(room))
  }

  /** `reactivateRoomBooking`: resumes booking of an active, suspended room. */
  function ReactivateRoomBooking(rooms: RoomTable, id: RoomId): (r: RoomReply)
    ensures !IsActiveRoom(rooms, id) ==> r == RoomReply(rooms, Err(RoomNotFound))
    ensures IsActiveRoom(rooms, id) && rooms[id].isBookable ==>
      r == RoomReply(rooms, Err(BookingAlreadyActive))
    ensures r.result.Ok? <==> IsActiveRoom(rooms, id) && !rooms[id].isBookable
    ensures r.result.Ok? ==>
      && r.rooms.Keys == rooms.Keys
      && r.result.value == r.rooms[id]
      && r.rooms[id].isBookable
      && r.rooms[id] == rooms[id].(isBookable := r.rooms[id].isBookable)
      && (forall other | other in rooms && other != id :: r.rooms[other] == rooms[other])
  {
    if !IsActiveRoom(rooms, id) then RoomReply(rooms, Err(RoomNotFound))
    else if rooms[id].isBookable then RoomReply(rooms, Err(BookingAlreadyActive))
    else
      var room := rooms[id].(isBookable := true);
      RoomReply(rooms[id := room], Ok(room))
  }

  // ---------------------------------------------------------------------
  // updateRoom and the two readers
  // ---------------------------------------------------------------------

  function ApplyPatch(room: Room, p: RoomPatch): Room {
    room.(location := OrElse(p.location, room.location),
          roomType := OrElse(p.roomType, room.roomType),
          capacity := OrElse(p.capacity, room.capacity),
          facilities := if p.facilities.Some? then p.facilities else room.facilities,
          department := if p.department.Some? then p.department else room.department,
          isBookable := OrElse(p.isBookable, room.isBookable))
  }

  /** `updateRoom`: on an active room, every field present in the request
      is overwritten and every absent one kept; `roomId` and `isActive` are
      never touched. No value is validated. */
  function UpdateRoom(rooms: RoomTable, id: RoomId, p: RoomPatch): (r: RoomReply)
    ensures r.result.Ok? <==> IsActiveRoom(rooms, id)
    ensures r.result.Err? ==> r == RoomReply(rooms, Err(RoomNotFound))
    ensures r.result.Ok? ==> r.rooms.Keys == rooms.Keys
    ensures r.result.Ok? ==>
      var before := rooms[id];
      var after := r.rooms[id];
      && r.result.value == after
      && after.roomId == before.roomId && after.isActive == before.isActive
      && after.location == (if p.location.Some? then p.location.value else before.location)
      && after.roomType == (if p.roomType.Some? then p.roomType.value else before.roomType)
      && after.capacity == (if p.capacity.Some? then p.capacity.value else before.capacity)
      && after.facilities == (if p.facilities.Some? then p.facilities else before.facilities)
      && after.department == (if p.department.Some? then p.department else before.department)
      && after.isBookable == (if p.isBookable.Some? then p.isBookable.value else before.isBookable)
      && (forall other | other in rooms && other != id :: r.rooms[other] == rooms[other])
  {
    if !IsActiveRoom(rooms, id) then RoomReply(rooms, Err(RoomNotFound))
    else
      var room := ApplyPatch(rooms[id], p);
      RoomReply(rooms[id := room], Ok(room))
  }

  /** `getRoomById`: only active rooms are found. */
  function GetRoomById(rooms: RoomTable, id: RoomId): (r: Result<Room, RoomError>)
    ensures r.Ok? <==> IsActiveRoom(rooms, id)
    ensures r.Ok? ==> r.value == rooms[id]
    ensures r.Err? ==> r.error == RoomNotFound
  {
    if IsActiveRoom(rooms, id) then Ok(rooms[id]) else Err(RoomNotFound)
  }

  /** `getAllRooms`: every stored room, active or not. */
  function GetAllRooms(rooms: RoomTable): (r: set<Room>)
    ensures forall id | id in rooms :: rooms[id] in r
    ensures forall room | room in r :: exists id | id in rooms :: rooms[id] == room
  {
    rooms.Values
  }

  // ---------------------------------------------------------------------
  // Properties of the flag state machine
  // ---------------------------------------------------------------------

  /** The status codes of the refusals: `addRoom` answers 400 for a missing
      field and 409 for a duplicate; a room that is absent, or inactive for
      the handlers that look only at active rooms, is a 404; a transition
      to the state the room is already in is a 400. */
  lemma ErrorStatus(rooms: RoomTable, id: RoomId, f: NewRoom, p: RoomPatch)
    ensures AddRoom(rooms, f).result.Err? ==>
      && (HttpStatus(AddRoom(rooms, f).result.error) == 400 <==>
            || !Truthy(f.roomId) || f.location.None? || !Truthy(f.roomType)
            || f.capacity.None? || f.capacity.value == 0)
      && (HttpStatus(AddRoom(rooms, f).result.error) == 409 <==> AddRoom(rooms, f).result == Err(DuplicateRoom))
    ensures !IsActiveRoom(rooms, id) ==>
      && HttpStatus(DeactivateRoom(rooms, id).result.error) == 404
      && HttpStatus(DeactivateRoomBooking(rooms, id).result.error) == 404
      && HttpStatus(ReactivateRoomBooking(rooms, id).result.error) == 404
      && HttpStatus(UpdateRoom(rooms, id, p).result.error) == 404
      && HttpStatus(GetRoomById(rooms, id).error) == 404
    ensures ReactivateRoom(rooms, id).result.Err? ==>
      && (HttpStatus(ReactivateRoom(rooms, id).result.error) == 404 <==> id !in rooms)
      && (HttpStatus(ReactivateRoom(rooms, id).result.error) == 400 <==> id in rooms)
    ensures ReactivateRoomBooking(rooms, id).result.Err? ==>
      (HttpStatus(ReactivateRoomBooking(rooms, id).result.error) == 400 <==> IsActiveRoom(rooms, id))
  {
  }

  /** Storing a room under its own id keeps every room under its own id. */
  lemma StoreKeepsKeys(rooms: RoomTable, room: Room)
    requires KeysMatch(rooms)
    ensures KeysMatch(rooms[room.roomId := room])
  {
  }

  /** Every handler keeps each room stored under its own id. */
  lemma HandlersKeepKeys(rooms: RoomTable, id: RoomId, f: NewRoom, p: RoomPatch)
    requires KeysMatch(rooms)
    ensures KeysMatch(AddRoom(rooms, f).rooms)
    ensures KeysMatch(DeactivateRoom(rooms, id).rooms)
    ensures KeysMatch(ReactivateRoom(rooms, id).rooms)
    ensures KeysMatch(DeactivateRoomBooking(rooms, id).rooms)
    ensures KeysMatch(ReactivateRoomBooking(rooms, id).rooms)
    ensures KeysMatch(UpdateRoom(rooms, id, p).rooms)
  {
    if id in rooms {
      StoreKeepsKeys(rooms, rooms[id].(isActive := false));
      StoreKeepsKeys(rooms, rooms[id].(isActive := true));
      StoreKeepsKeys(rooms, rooms[id].(isBookable := false));
      StoreKeepsKeys(rooms, rooms[id].(isBookable := true));
      StoreKeepsKeys(rooms, ApplyPatch(rooms[id], p));
    }
  }

  /** Soft delete is undone exactly by reactivation. */
  lemma DeactivateThenReactivateRoom(rooms: RoomTable, id: RoomId)
    requires IsActiveRoom(rooms, id)
    ensures ReactivateRoom(DeactivateRoom(rooms, id).rooms, id) == RoomReply(rooms, Ok(rooms[id]))
  {
    var r1 := DeactivateRoom(rooms, id);
    assert r1.rooms[id].(isActive := true) == rooms[id];
    assert r1.rooms[id := rooms[id]] == rooms;
  }

  /** Suspending booking of a bookable room is undone exactly by resuming it. */
  lemma SuspendThenResumeBooking(rooms: RoomTable, id: RoomId)
    requires IsActiveRoom(rooms, id) && rooms[id].isBookable
    ensures ReactivateRoomBooking(DeactivateRoomBooking(rooms, id).rooms, id) == RoomReply(rooms, Ok(rooms[id]))
  {
    var r1 := DeactivateRoomBooking(rooms, id);
    assert r1.rooms[id].(isBookable := true) == rooms[id];
    assert r1.rooms[id := rooms[id]] == rooms;
  }

  /** Suspending booking twice is the same as suspending it once. */
  lemma SuspendBookingIdempotent(rooms: RoomTable, id: RoomId)
    ensures DeactivateRoomBooking(DeactivateRoomBooking(rooms, id).rooms, id).rooms
         == DeactivateRoomBooking(rooms, id).rooms
  {
  }

  /** A soft-deleted room is frozen: it is not found by id, cannot be
      updated or have its booking flag changed, and is still listed. */
  lemma InactiveRoomIsFrozen(rooms: RoomTable, id: RoomId, p: RoomPatch)
    requires id in rooms && !rooms[id].isActive
    ensures GetRoomById(rooms, id) == Err(RoomNotFound)
    ensures rooms[id] in GetAllRooms(rooms)
    ensures DeactivateRoom(rooms, id) == RoomReply(rooms, Err(RoomNotFound))
    ensures DeactivateRoomBooking(rooms, id) == RoomReply(rooms, Err(RoomNotFound))
    ensures ReactivateRoomBooking(rooms, id) == RoomReply(rooms, Err(RoomNotFound))
    ensures UpdateRoom(rooms, id, p) == RoomReply(rooms, Err(RoomNotFound))
    ensures ReactivateRoom(rooms, id).result.Ok?
  {
  }

  /** Applying the same update twice is the same as applying it once. */
  lemma UpdateRoomIdempotent(rooms: RoomTable, id: RoomId, p: RoomPatch)
    ensures UpdateRoom(UpdateRoom(rooms, id, p).rooms, id, p).rooms == UpdateRoom(rooms, id, p).rooms
  {
  }

  /** An update that carries no field rewrites the room unchanged. */
  lemma EmptyUpdateChangesNothing(rooms: RoomTable, id: RoomId)
    ensures UpdateRoom(rooms, id, RoomPatch(None, None, None, None, None, None)).rooms == rooms
  {
    if IsActiveRoom(rooms, id) {
      assert ApplyPatch(rooms[id], RoomPatch(None, None, None, None, None, None)) == rooms[id];
    }
  }
}
