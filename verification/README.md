# Campus resource management: the booking, sweeping and numbering core

A Dafny model of the logic at the centre of a campus resource-management
backend (an Express/Mongoose service). It covers five pieces:

- **Room bookings**:
  - the admission of a new booking, with its interval, overlap and timetable checks;
  - the booking-number counter;
  - cancellation;
  - the admin listing filter;
  - the booking schema's status domain and its `roomType` pre-validate hook.
- **Three time-driven sweeps**, each a pure function of the state and one instant `now`:
  - lab-equipment booking completion, with equipment `in-use`/`available` reconciliation;
  - room-booking expiry;
  - library-loan overdue promotion.
- **The room flag state machine** over `isActive` and `isBookable`. This covers `addRoom` validation, the four activate/deactivate handlers, `updateRoom`'s partial update and the two getters.
- **Accession-number generation** for library books:
  - it reads the last `-`-separated field of the previous number with `parseInt`;
  - it emits consecutive identifiers, zero-padded to six characters;
  - `addBooksInBulk` builds one `AVAILABLE` book per identifier.
- **Class creation**: the class schema trims the class name and the section, and upper-cases and trims the department. The duplicate-name check looks up the trimmed name and runs before the subjects check.

The model is functional. Every database is an immutable value: maps of rooms and equipment, and sequences of bookings, loans and books. Each handler that writes is a pure function returning the new database together with a `Result`. The readers (`GetRoomById`, `GetAllRooms`, `ListRoomBookings`) return only what they read. `AddBooksInBulk` returns the books it would insert, because the insert itself is not modelled. An HTTP error code becomes a variant of an error datatype, and `HttpStatus` maps it back to its code.

The JavaScript primitives the core relies on are modelled in `Text`:

- `split`, `parseInt`, `Number`, `String`, `padStart`, `trim` and `toUpperCase`;
- a number that is `NaN` or an unbounded integer.

The weekday and minute-of-day of a booking request, the current instant and the current year are inputs. The source derives them from the server's local clock.

Module layout, one module per source concern:

| file | module | source |
|---|---|---|
| results.dfy | `Results` | `Option`, `Result`, JavaScript truthiness of a string |
| text.dfy | `Text` | JavaScript string/number primitives |
| rooms.dfy | `Rooms` | backend/src/modules/room/room.controller.js |
| timetable.dfy | `Timetable` | the timetable-clash computation in roomBooking.controller.js |
| room_bookings.dfy | `RoomBookings` | roomBooking.controller.js, roomBooking.model.js |
| room_booking_expiry.dfy | `RoomBookingExpiry` | backend/src/jobs/roomBookingStatus.job.js |
| room_sessions.dfy | `RoomSessions` | sequential runs of the room handlers and the expiry sweep |
| equipment_sweep.dfy | `EquipmentSweep` | backend/src/jobs/bookingStatus.job.js |
| books.dfy | `Books` | the book and loan schemas |
| issue_overdue.dfy | `IssueOverdue` | backend/src/jobs/issueOverdue.job.js |
| accession.dfy | `Accession` | backend/src/modules/library/library.utils.js |
| library_service.dfy | `LibraryService` | backend/src/modules/library/library.service.js |
| classes.dfy | `Classes` | backend/src/modules/timetable/timetable.service.js, class.model.js |

Behaviour the code has and the model keeps, where a reader might expect otherwise:

- **Cancellation** is an unconditional status overwrite. It makes no ownership check, and it also turns an `expired` booking into `cancelled`.
- **`createRoomBooking` ignores the room's flags.** It never consults `isActive` or `isBookable`. The `roomType` hook copies the type from a room whether it is active or not.
- **A booking number can be consumed by a failed request.** The number is drawn before the booking is created. If the hook then finds no room with that id, or the room's type is empty, the request fails with 500 and the number is used up. A request rejected by one of the three admission checks never consumes a number.
- **Timetable times are compared literally.** The timetable check uses the minute-of-day of the booking's end. A booking that spans midnight is therefore compared using the end's time of day, exactly as written.
- **The equipment sweep overwrites maintenance.** Either pass sets the status whatever it was before, so an equipment under `maintenance` is set to `in-use` or `available`. The model follows the code here, even though maintenance reads as a state only an administrator should clear.
- **In-use and running bookings are not equivalent after a sweep.** Equipment that is `in-use` after a sweep need not have a running booking. The sweep only promises the direction "running booking ⇒ `in-use`", and releases an equipment only when no active booking of it ends after `now`.
- **An unparsable previous accession number repeats one identifier.** If the last field of the previous number does not parse, `parseInt` gives `NaN`. Every identifier of the call then ends in `000NaN`.
- **`addBooksInBulk` with `copies` undefined builds no book.** `undefined <= 0` is false, so no error is raised, and `Array.from` of an undefined length is empty.
- **`addRoom` checks presence, not values.** It accepts an empty-string location and a negative capacity. It rejects a missing or empty roomId or roomType, a missing location, and a capacity that is missing or 0.

The only concurrency setting is sequential: `RoomSessions.Run` applies requests one after another. The source takes no lock and uses no transaction. The non-overlap invariant is claimed only for sequential runs, and no at-most-one-writer guarantee is claimed.

## Model

| member | source | states |
|---|---|---|
| RoomBookings.NextBookingNumber | backend/src/modules/room/roomBooking.controller.js:5-13 | the drawn number is above the stored value, is 1 when no counter exists yet, and is what the counter holds afterwards |
| RoomBookings.DrawsAreConsecutive | backend/src/modules/room/roomBooking.controller.js:5-13 | k successive draws hand out counter+1 … counter+k, strictly increasing and so pairwise distinct |
| RoomBookings.FindBlocking | backend/src/modules/room/roomBooking.controller.js:29-36 | finds a blocking booking iff some active booking of the same room overlaps the request, and returns the first one |
| RoomBookings.AnyClassClash | backend/src/modules/room/roomBooking.controller.js:52-67 | true iff some timetable entry of the room on the start's weekday overlaps the requested minutes |
| RoomBookings.FillRoomType | backend/src/modules/room/roomBooking.model.js:46-56 | a set roomType is kept; an empty one is copied from the room with that id, and fails exactly when no such room exists |
| RoomBookings.FillRoomTypeIdempotent | backend/src/modules/room/roomBooking.model.js:47 | running the hook on its own output changes nothing |
| RoomBookings.CreateRoomBooking | backend/src/modules/room/roomBooking.controller.js:16-90 | each rejection holds iff its check is the first to fail (interval, then overlap, then timetable); those three leave the database, counter included, unchanged; past them the counter always advances, and the request fails on an unknown room or empty room type; otherwise exactly one active booking with the requested room, requester, interval, the room's type and the fresh number is appended |
| RoomBookings.CreateErrorStatus | backend/src/modules/room/roomBooking.controller.js:22-89 | a refused booking is a 500 iff the three admission checks passed, a 400 iff the interval is empty, and a 4xx iff the database is unchanged, so exactly the 500s have consumed a booking number |
| RoomBookings.CancelRoomBooking | backend/src/modules/room/roomBooking.controller.js:93-114 | an unknown id fails with not-found and changes nothing; otherwise the booking becomes cancelled whatever its status, no other field or booking changes |
| RoomBookings.CancelIdempotent | backend/src/modules/room/roomBooking.controller.js:105-106 | cancelling twice gives the same database as cancelling once |
| RoomBookings.CancelledNeverBlocks | backend/src/modules/room/roomBooking.controller.js:29-34 | a cancelled booking never blocks any later request for its room |
| RoomBookings.ListRoomBookings | backend/src/modules/room/roomBooking.controller.js:120-141 | a booking is listed iff it is stored, its status matches a non-empty status filter, and it is the caller's for "me" or another user's for "others" |
| RoomBookings.MeAndOthersPartition | backend/src/modules/room/roomBooking.controller.js:134-139 | "me" and "others" split the unfiltered listing between them |
| RoomBookings.CreateKeepsValid | backend/src/modules/room/roomBooking.controller.js:29-81 | admission keeps the invariant: well-formed intervals, booking numbers unique and within the counter, active bookings of a room pairwise non-overlapping |
| RoomBookings.CancelKeepsValid | backend/src/modules/room/roomBooking.controller.js:97-106 | cancellation keeps the same invariant |
| RoomBookingExpiry.ExpireBookings | backend/src/jobs/roomBookingStatus.job.js:9-17 | exactly the active bookings with end at or before now become expired; every other booking is unchanged |
| RoomBookingExpiry.SweepRoomBookings | backend/src/jobs/roomBookingStatus.job.js:9-17 | one tick writes only booking statuses; rooms, timetable and counter are untouched |
| RoomBookingExpiry.ExpiryBoundary | backend/src/jobs/roomBookingStatus.job.js:10-11 | end == now expires, end > now stays active, cancelled and expired bookings are untouched |
| RoomBookingExpiry.ExpiryIdempotent | backend/src/jobs/roomBookingStatus.job.js:14-17 | a second tick at the same instant changes nothing |
| RoomBookingExpiry.ExpiryKeepsValid | backend/src/jobs/roomBookingStatus.job.js:9-17 | expiry keeps the booking invariant |
| RoomSessions.StepKeepsValid | backend/src/modules/room/roomBooking.controller.js:16-114 | every request or tick, whatever its outcome, keeps the invariant |
| RoomSessions.RunKeepsValid | backend/src/modules/room/roomBooking.controller.js:16-114 | any sequential run keeps active bookings of each room pairwise non-overlapping and booking numbers unique |
| RoomSessions.RunOnlyChangesStatus | backend/src/modules/room/roomBooking.controller.js:73-110 | bookings are never removed, only their status changes, and the counter never goes back |
| Rooms.AddRoom | backend/src/modules/room/room.controller.js:8-33 | missing-fields iff roomId or roomType is missing or empty, capacity is missing or 0, or location is undefined; otherwise duplicate iff the roomId exists; succeeds iff neither applies, and then the room is inserted with the given fields, active and bookable, and nothing else changes |
| Rooms.DeactivateRoom | backend/src/modules/room/room.controller.js:45-53 | succeeds iff the room is active; clears isActive only, keeping isBookable and every other room |
| Rooms.ReactivateRoom | backend/src/modules/room/room.controller.js:150-162 | not-found for a missing room, already-active for an active one; otherwise sets isActive only, keeping isBookable |
| Rooms.DeactivateRoomBooking | backend/src/modules/room/room.controller.js:65-73 | succeeds iff the room is active, also when it is already unbookable; clears isBookable only |
| Rooms.ReactivateRoomBooking | backend/src/modules/room/room.controller.js:174-186 | not-found for a missing or inactive room, already-active for a bookable one; otherwise sets isBookable only |
| Rooms.UpdateRoom | backend/src/modules/room/room.controller.js:98-121 | succeeds iff the room is active; each present field is overwritten and each absent one kept; roomId and isActive never change |
| Rooms.GetRoomById | backend/src/modules/room/room.controller.js:133-138 | found iff the room exists and is active |
| Rooms.GetAllRooms | backend/src/modules/room/room.controller.js:86 | lists exactly the stored rooms, active or not |
| Rooms.ErrorStatus | backend/src/modules/room/room.controller.js:17-24 | addRoom answers 400 exactly for a missing field and 409 for a duplicate; every handler that looks only at active rooms answers 404 for an absent or inactive room; reactivateRoom answers 404 iff the room is absent and 400 iff it exists; reactivateRoomBooking answers 400 iff the room is active |
| Rooms.HandlersKeepKeys | backend/src/modules/room/room.controller.js:26-33 | every handler keeps each room stored under its own roomId |
| Rooms.DeactivateThenReactivateRoom | backend/src/modules/room/room.controller.js:148-162 | reactivation exactly undoes a soft delete |
| Rooms.SuspendThenResumeBooking | backend/src/modules/room/room.controller.js:172-186 | resuming booking exactly undoes suspending it |
| Rooms.SuspendBookingIdempotent | backend/src/modules/room/room.controller.js:67-73 | suspending booking twice is suspending it once |
| Rooms.InactiveRoomIsFrozen | backend/src/modules/room/room.controller.js:131-138 | an inactive room is not found by id and refused by every handler except reactivation, yet still listed |
| Rooms.UpdateRoomIdempotent | backend/src/modules/room/room.controller.js:114-121 | applying the same update twice is applying it once |
| Rooms.EmptyUpdateChangesNothing | backend/src/modules/room/room.controller.js:114-121 | an update with no field leaves every room as it was |
| Timetable.ClockMinutes | backend/src/modules/room/roomBooking.controller.js:58-62 | a time without ':' leaves the minutes undefined and reads as NaN |
| Timetable.EntryClash | backend/src/modules/room/roomBooking.controller.js:57-64 | a clash needs both entry bounds to read as numbers and is then a half-open overlap; touching ends never clash |
| Timetable.ClockMinutesOfClock | backend/src/modules/room/roomBooking.controller.js:58-62 | an "HH:MM" time reads as h * 60 + m |
| Timetable.ClashIsHalfOpenOverlap | backend/src/modules/room/roomBooking.controller.js:57-65 | for well-formed entry times a clash is exactly a half-open overlap of the minute intervals |
| Timetable.MalformedEntryNeverClashes | backend/src/modules/room/roomBooking.controller.js:58-64 | an entry whose time does not read as a number never clashes |
| EquipmentSweep.ActivationPass | backend/src/jobs/bookingStatus.job.js:10-21 | the loop over started bookings keeps every equipment key, writes no status but in-use, and never takes in-use away |
| EquipmentSweep.ReleaseStep | backend/src/jobs/bookingStatus.job.js:28-42 | one iteration completes booking k if it has finished and touches no other booking; it writes only available, and only to that booking's equipment, which it releases when no active booking of it still ends after now |
| EquipmentSweep.ReleasePass | backend/src/jobs/bookingStatus.job.js:23-43 | the loop from position k leaves earlier bookings alone, completes each finished one from k on, keeps the equipment keys and writes no status but available |
| EquipmentSweep.ActivationPassResult | backend/src/jobs/bookingStatus.job.js:10-21 | after the first pass an equipment is in use iff it has a running active booking, otherwise unchanged |
| EquipmentSweep.ReleasePassResult | backend/src/jobs/bookingStatus.job.js:23-43 | the document-by-document release pass reaches the closed-form result |
| EquipmentSweep.SweepLab | backend/src/jobs/bookingStatus.job.js:7-43 | one tick completes exactly the ended active bookings and gives each equipment its closed-form status; the equipment keys are kept |
| EquipmentSweep.SweepActivatesRunning | backend/src/jobs/bookingStatus.job.js:10-36 | an equipment with a running booking is in use after the tick, the release pass cannot undo it |
| EquipmentSweep.SweepCompletesEnded | backend/src/jobs/bookingStatus.job.js:23-30 | active bookings with end <= now become completed, all others are untouched, and no booking changes anything but its status |
| EquipmentSweep.SweepReleasesIdle | backend/src/jobs/bookingStatus.job.js:32-43 | the equipment of an ended booking is available when no active booking of it ends after now |
| EquipmentSweep.FutureBookingBlocksRelease | backend/src/jobs/bookingStatus.job.js:32-36 | a not-yet-started active booking also prevents the release |
| EquipmentSweep.SweepFrame | backend/src/jobs/bookingStatus.job.js:16-43 | equipment with neither a running nor an ended active booking keeps its status |
| EquipmentSweep.MaintenanceIsOverwritten | backend/src/jobs/bookingStatus.job.js:17-20 | equipment under maintenance with a running booking is set in use |
| EquipmentSweep.SweepIdempotent | backend/src/jobs/bookingStatus.job.js:10-43 | a second tick at the same instant changes nothing |
| IssueOverdue.MarkOverdue | backend/src/jobs/issueOverdue.job.js:12-20 | exactly the issued loans due strictly before now become overdue; every other loan is unchanged |
| IssueOverdue.SweepIssues | backend/src/jobs/issueOverdue.job.js:12-22 | one tick writes only loan statuses; the books are untouched |
| IssueOverdue.OverdueBoundary | backend/src/jobs/issueOverdue.job.js:13-19 | a loan due exactly now is not overdue, returned and overdue loans are untouched, and fine, return time and due date are kept |
| IssueOverdue.BookStaysIssued | backend/src/jobs/issueOverdue.job.js:21 | a book on an overdue loan keeps its issued status |
| IssueOverdue.OverdueIdempotent | backend/src/jobs/issueOverdue.job.js:17-19 | a second tick at the same instant changes nothing |
| Text.DecimalRoundTrip | backend/src/modules/library/library.utils.js:21 | reading back the decimal spelling of a number gives the number |
| Text.IntToString | backend/src/modules/library/library.utils.js:21 | the spelling of a number is all digits iff the number is not negative |
| Text.PadStart | backend/src/modules/library/library.utils.js:21-22 | padding never truncates: the result ends with the input, is at least the width long, and is filled before it |
| Text.ParseIntOfPadded | backend/src/modules/library/library.utils.js:15-21 | parseInt reads back a zero-padded decimal spelling |
| Text.JoinSplit | backend/src/modules/library/library.utils.js:14 | splitting loses nothing: joining the fields with the separator gives the string back |
| Text.SplitAppendField | backend/src/modules/library/library.utils.js:14-15 | appending a separator and a separator-free field appends exactly one field |
| Text.Trim | backend/src/modules/timetable/class.model.js:9 | the trim is a slice of the input, a prefix of what `trimStart` keeps, and neither starts nor ends with white space |
| Text.TrimDropsOnlyWhitespace | backend/src/modules/timetable/class.model.js:9 | every character the trim drops, before or after the slice it keeps, is white space |
| Text.TrimOfTrimmed | backend/src/modules/timetable/class.model.js:9 | a string that neither starts nor ends with white space is its own trim |
| Text.TrimIdempotent | backend/src/modules/timetable/class.model.js:9 | trimming twice is trimming once |
| Text.TrimIgnoresLeadingWhitespace | backend/src/modules/timetable/class.model.js:9 | a white-space character in front does not change the trim |
| Text.TrimIgnoresTrailingWhitespace | backend/src/modules/timetable/class.model.js:9 | a white-space character at the end does not change the trim |
| Text.TrimOfPadded | backend/src/modules/timetable/class.model.js:9 | one white-space character before or after a trimmed string is trimmed away again |
| Text.ToUpperCase | backend/src/modules/timetable/class.model.js:15 | same length, no lower-case ASCII letter left, each lower-case letter shifted to its capital, every other character kept |
| Text.ToUpperCaseOfUpper | backend/src/modules/timetable/class.model.js:15 | a string without lower-case ASCII letters is its own upper case |
| Text.TrimKeepsNoLower | backend/src/modules/timetable/class.model.js:15-16 | trimming a string without lower-case ASCII letters leaves none |
| Text.UpperTrimIdempotent | backend/src/modules/timetable/class.model.js:15-16 | the department setters applied twice give what they give once |
| Text.LastFieldAfterSeparator | backend/src/modules/library/library.utils.js:14-15 | the last field of prefix-sep-field is the field |
| Accession.StartNumber | backend/src/modules/library/library.utils.js:11-16 | 1 without a previous number; otherwise parseInt of its last field plus 1, which is NaN or at least 1 |
| Accession.GenerateAccessionNumbers | backend/src/modules/library/library.utils.js:20-23 | count entries (none for count <= 0), each with the ACC-year-category- and LIB-category- prefixes and a suffix of at least six characters |
| Accession.SuffixReadsBack | backend/src/modules/library/library.utils.js:21-22 | a padded suffix holds no '-', is at least six characters, and reads back as its number |
| Accession.IdentifierReadsBack | backend/src/modules/library/library.utils.js:21-22 | both numbers of an identifier end in the same suffix field, which parses back to the identifier's number |
| Accession.GeneratedNumberReadsBack | backend/src/modules/library/library.utils.js:20-23 | entry i carries start + i: its accession number is non-empty, its last field parses back to start + i, and the book number ends in the same field |
| Accession.GeneratedIdentifiersDistinct | backend/src/modules/library/library.utils.js:20-23 | with a parsable previous number, the identifiers of one call are pairwise distinct |
| Accession.GenerationContinues | backend/src/modules/library/library.utils.js:11-23 | feeding the last generated number back in starts the next call at start + count |
| Accession.UnparsableLastNumberRepeats | backend/src/modules/library/library.utils.js:13-21 | an unparsable previous number makes every accession number of the call end in 000NaN |
| LibraryService.AddBooksInBulk | backend/src/modules/library/library.service.js:15-31 | fails iff copies is given and <= 0; otherwise one AVAILABLE book per identifier with the payload's metadata and identifier i's numbers, copies books in all, none when copies is undefined |
| LibraryService.BulkBooksDistinct | backend/src/modules/library/library.service.js:19-29 | the books of one call have pairwise distinct accession and book numbers |
| Classes.FindClass | backend/src/modules/timetable/timetable.service.js:13 | finds a class of that name iff one exists |
| Classes.CreateClass | backend/src/modules/timetable/timetable.service.js:13-30 | conflict iff the trimmed name is taken; otherwise bad-request iff subjects are missing or empty; otherwise exactly one class is appended, with the name and section trimmed, the department upper-cased and trimmed, the other fields as given, and every field in stored form |
| Classes.DuplicateCheckedFirst | backend/src/modules/timetable/timetable.service.js:13-20 | a taken trimmed name with missing subjects is reported as a conflict |
| Classes.WhitespaceAroundNameIsDuplicate | backend/src/modules/timetable/class.model.js:5-10 | a request naming a stored class with one white-space character before or after it is reported as a conflict, because the filter is trimmed like the stored name |
| Classes.StoredIsSetterFixpoint | backend/src/modules/timetable/class.model.js:5-29 | a class in stored form is a fixed point of the schema's setters: saving it again changes no field |
| Classes.AppendKeepsStored | backend/src/modules/timetable/class.model.js:5-29 | appending a stored class to stored classes leaves every class stored |
| Classes.CreateKeepsStored | backend/src/modules/timetable/timetable.service.js:22-28 | creation keeps every class in stored form |
| Classes.CreateKeepsNamesUnique | backend/src/modules/timetable/timetable.service.js:13-30 | creation keeps class names unique |

## Left out

- Persistence: Mongoose queries, `populate`, the newest-first sort of the listing, `save` and `insertMany` become in-memory sequences and maps. Unique-index and `insertMany` failures are not modelled.
- Concurrency: `node-cron` scheduling, overlapping ticks and racing requests are out of scope. Only sequential runs are modelled, and no at-most-one-writer guarantee is claimed.
- The per-tick `try/catch` logging of the three jobs is not modelled, and neither is the generic 500 path of a handler whose database call throws.
- The clock and time zone: `new Date()`, the `toLocaleString` weekday, `getHours`/`getMinutes` and `getFullYear` are inputs. Invalid dates, which make every comparison false, are not modelled; instants are integers.
- Booking ids are positions in the bookings sequence. A malformed `bookingId`, which would fail the id cast with 500, is not modelled.
- `Text.ParseInt` does not model leading whitespace or a `0x` prefix. These do not arise for the identifiers the core produces itself.
- `Text.ToNumber`: JavaScript's `Number` also accepts surrounding whitespace, a sign, an exponent, a fraction, `0x`/`0b`/`0o` prefixes and `Infinity`. The model turns every such string into NaN, although `Number("0x1E")` is 30, for example. Timetable times are stored strings that an administrator uploads as a CSV file (frontend/src/pages/admin/Timetable.jsx:27-36), and that upload is not part of this model. A time spelled in one of those forms may therefore read as a number in the source and as NaN in the model. `Timetable.ClockMinutes` and `Timetable.EntryClash` inherit this restriction.
- Numbers are unbounded integers, so the 2^53 precision limit of JavaScript numbers is not modelled.
- `Accession.GenerateAccessionNumbers` takes the previous accession number of the category as a parameter. Which book is "last", newest `createdAt` with ties unspecified, is a database question. A `copies` given as a string or `null` is not modelled either, because `copies` is an optional integer.
- The room schema file is not part of this model. New rooms are taken to start active and bookable, and the schema's own validators (for example on capacity) are not modelled.
- `Classes.CreateClass` does not model the class schema's validators: required `className`, `department` and `semester`, the semester range 1 to 8, and the unique index on `className`. It does not model the `isActive` default either. A request that breaks a validator fails in the source and creates a class in the model.
- `Text.ToUpperCase` upper-cases ASCII letters only. JavaScript also maps letters of other scripts, and maps 'ß' to "SS", so a department spelled with such letters is stored differently in the source.
- Lab booking creation, cancellation and free-slot computation live in a lab service that is not part of this model. Library issue and return and fine computation are not part of this model either. Only their effects as stored data feed the sweeps.
- User profiles, subjects CRUD, route and role wiring, and the whole frontend are outside the core.
