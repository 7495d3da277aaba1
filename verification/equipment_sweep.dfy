/** The lab-equipment sweep (backend/src/jobs/bookingStatus.job.js).

    One tick reads the clock once and runs two passes against that single
    `now`:
    - activation: every equipment with an active booking that has started
      and not ended (`start <= now < end`) is set to in-use, unless it
      already is;
    - completion and release: every active booking that has ended
      (`end <= now`) becomes completed, and its equipment is set to
      available unless some active booking of that equipment still ends
      after `now` (a future booking that has not started counts too).

    The passes are modelled document by document, as the job runs them, and
    the sweep's contract states the end result in closed form. Equipment
    status is written without regard to its previous value: a
    `Maintenance` equipment is overwritten by either pass. */
module EquipmentSweep {
  import opened Results

  type EquipmentId = nat

  datatype EquipmentStatus = Available | InUse | Maintenance

  datatype LabBookingStatus = Active | Completed | Cancelled

  datatype LabBooking = LabBooking(
    equipment: EquipmentId,
    bookedBy: UserId,
    start: int,
    end: int,
    status: LabBookingStatus)

  datatype LabDb = LabDb(equipment: map<EquipmentId, EquipmentStatus>, bookings: seq<LabBooking>)

  // ---------------------------------------------------------------------
  // The three queries of the job
  // ---------------------------------------------------------------------

  /** `status: "active", startTime: { $lte: now }, endTime: { $gt: now }` */
  predicate Started(b: LabBooking, now: int) {
    b.status == Active && b.start <= now && now < b.end
  }

  /** `status: "active", endTime: { $lte: now }` */
  predicate Finished(b: LabBooking, now: int) {
    b.status == Active && b.end <= now
  }

  /** `Booking.exists({ equipment: e, status: "active", endTime: { $gt: now } })` */
  predicate StillInUse(bs: seq<LabBooking>, e: EquipmentId, now: int) {
    exists j | 0 <= j < |bs| :: bs[j].equipment == e && bs[j].status == Active && bs[j].end > now
  }

  predicate HasStarted(bs: seq<LabBooking>, e: EquipmentId, now: int) {
    exists j | 0 <= j < |bs| :: bs[j].equipment == e && Started(bs[j], now)
  }

  /** Some booking among the first `k` of equipment `e` has finished. */
  predicate HasFinishedBefore(bs: seq<LabBooking>, e: EquipmentId, now: int, k: nat)
    requires k <= |bs|
  {
    exists j | 0 <= j < k :: bs[j].equipment == e && Finished(bs[j], now)
  }

  predicate HasFinished(bs: seq<LabBooking>, e: EquipmentId, now: int) {
    HasFinishedBefore(bs, e, now, |bs|)
  }

  // ---------------------------------------------------------------------
  // The two passes, document by document
  // ---------------------------------------------------------------------

  /** `Equipment.updateOne({ _id: e, status: { $ne: "in-use" } }, in-use)`;
      an unknown id matches nothing. */
  function MarkInUse(eq: map<EquipmentId, EquipmentStatus>, e: EquipmentId): map<EquipmentId, EquipmentStatus> {
    if e in eq && eq[e] != InUse then eq[e := InUse] else eq
  }

  /** The loop over the started bookings: each marks its equipment in use.
      No equipment is added or removed, and none gets any status but the
      one it had or `InUse`. */
  function ActivationPass(bs: seq<LabBooking>, eq: map<EquipmentId, EquipmentStatus>, now: int)
    : (r: map<EquipmentId, EquipmentStatus>)
    ensures r.Keys == eq.Keys
    ensures forall e | e in eq :: r[e] == eq[e] || r[e] == InUse
    ensures forall e | e in eq && eq[e] == InUse :: r[e] == InUse
    decreases |bs|
  {
    if |bs| == 0 then eq
    else
      var eq' := if Started(bs[0], now) then MarkInUse(eq, bs[0].equipment) else eq;
      ActivationPass(bs[1..], eq', now)
  }

  /** One iteration of the loop over the finished bookings: complete the
      booking at position `k`, then release its equipment unless it is
      still in use. Only booking `k` and the status of its equipment can
      change, and the only status written is `Available`. */
  function ReleaseStep(db: LabDb, k: nat, now: int): (r: LabDb)
    requires k < |db.bookings|
    ensures |r.bookings| == |db.bookings|
    ensures r.bookings[k] == CompleteIfFinished(db.bookings[k], now)
    ensures forall j | 0 <= j < |db.bookings| && j != k :: r.bookings[j] == db.bookings[j]
    ensures r.equipment.Keys == db.equipment.Keys
    ensures forall e | e in db.equipment && e != db.bookings[k].equipment :: r.equipment[e] == db.equipment[e]
    ensures forall e | e in db.equipment :: r.equipment[e] == db.equipment[e] || r.equipment[e] == Available
    ensures Finished(db.bookings[k], now) && db.bookings[k].equipment in db.equipment
         && !StillInUse(r.bookings, db.bookings[k].equipment, now)
        ==> r.equipment[db.bookings[k].equipment] == Available
  {
    var b := db.bookings[k];
    if !Finished(b, now) then db
    else
      var bs := db.bookings[k := b.(status := Completed)];
      var eq := if !StillInUse(bs, b.equipment, now) && b.equipment in db.equipment
                then db.equipment[b.equipment := Available] else db.equipment;
      LabDb(eq, bs)
  }

  /** The loop over the finished bookings, from position `k` on: the
      bookings before `k` are left alone, each one from `k` on is completed
      if it has finished, and equipment only ever becomes `Available`. */
  function ReleasePass(db: LabDb, k: nat, now: int): (r: LabDb)
    requires k <= |db.bookings|
    ensures |r.bookings| == |db.bookings|
    ensures forall j | 0 <= j < k :: r.bookings[j] == db.bookings[j]
    ensures forall j | k <= j < |db.bookings| :: r.bookings[j] == CompleteIfFinished(db.bookings[j], now)
    ensures r.equipment.Keys == db.equipment.Keys
    ensures forall e | e in db.equipment :: r.equipment[e] == db.equipment[e] || r.equipment[e] == Available
    decreases |db.bookings| - k
  {
    if k == |db.bookings| then db else ReleasePass(ReleaseStep(db, k, now), k + 1, now)
  }

  // ---------------------------------------------------------------------
  // The closed form of one tick
  // ---------------------------------------------------------------------

  /** What the sweep does to one booking. */
  function CompleteIfFinished(b: LabBooking, now: int): LabBooking {
    if Finished(b, now) then b.(status := Completed) else b
  }

  /** What the sweep does to the status of one equipment. */
  function SweptStatus(bs: seq<LabBooking>, eq: map<EquipmentId, EquipmentStatus>, e: EquipmentId, now: int)
    : EquipmentStatus
    requires e in eq
  {
    if HasFinished(bs, e, now) && !StillInUse(bs, e, now) then Available
    else if HasStarted(bs, e, now) then InUse
    else eq[e]
  }

  lemma {:induction false} ActivationPassResult(bs: seq<LabBooking>, eq: map<EquipmentId, EquipmentStatus>, now: int)
    ensures ActivationPass(bs, eq, now).Keys == eq.Keys
    ensures forall e | e in eq ::
      ActivationPass(bs, eq, now)[e] == if HasStarted(bs, e, now) then InUse else eq[e]
    decreases |bs|
  {
    if |bs| > 0 {
      var eq' := if Started(bs[0], now) then MarkInUse(eq, bs[0].equipment) else eq;
      ActivationPassResult(bs[1..], eq', now);
      forall e | e in eq
        ensures HasStarted(bs, e, now) <==>
          (bs[0].equipment == e && Started(bs[0], now)) || HasStarted(bs[1..], e, now)
      {
        if HasStarted(bs, e, now) {
          var j :| 0 <= j < |bs| && bs[j].equipment == e && Started(bs[j], now);
          if j > 0 {
            assert bs[1..][j - 1] == bs[j];
          }
        }
        if HasStarted(bs[1..], e, now) {
          var j :| 0 <= j < |bs[1..]| && bs[1..][j].equipment == e && Started(bs[1..][j], now);
          assert bs[j + 1] == bs[1..][j];
        }
      }
    }
  }

  /** Completing finished bookings does not change which equipment is still
      in use: only bookings ending after `now` are counted, and those are
      never completed. */
  lemma StillInUseUnchanged(bs: seq<LabBooking>, orig: seq<LabBooking>, e: EquipmentId, now: int)
    requires |bs| == |orig|
    requires forall j | 0 <= j < |bs| :: bs[j] == orig[j] || bs[j] == CompleteIfFinished(orig[j], now)
    ensures StillInUse(bs, e, now) <==> StillInUse(orig, e, now)
  {
    if StillInUse(orig, e, now) {
      var j :| 0 <= j < |orig| && orig[j].equipment == e && orig[j].status == Active && orig[j].end > now;
      assert bs[j] == orig[j];
    }
  }

  /** The status of `e` once the first `k` bookings have been processed. */
  function ReleasedStatus(orig: seq<LabBooking>, eq0: map<EquipmentId, EquipmentStatus>,
                          e: EquipmentId, now: int, k: nat): EquipmentStatus
    requires k <= |orig| && e in eq0
  {
    if HasFinishedBefore(orig, e, now, k) && !StillInUse(orig, e, now) then Available else eq0[e]
  }

  /** The state of the release loop after `k` iterations, in terms of the
      bookings `orig` and equipment `eq0` it started from. */
  predicate ReleaseInv(db: LabDb, k: nat, now: int, orig: seq<LabBooking>, eq0: map<EquipmentId, EquipmentStatus>) {
    && k <= |db.bookings| == |orig|
    && (forall j | 0 <= j < k :: db.bookings[j] == CompleteIfFinished(orig[j], now))
    && (forall j | k <= j < |orig| :: db.bookings[j] == orig[j])
    && db.equipment.Keys == eq0.Keys
    && (forall e | e in eq0 :: db.equipment[e] == ReleasedStatus(orig, eq0, e, now, k))
  }

  lemma FinishedBeforeStep(orig: seq<LabBooking>, e: EquipmentId, now: int, k: nat)
    requires k < |orig|
    ensures HasFinishedBefore(orig, e, now, k + 1) <==>
      HasFinishedBefore(orig, e, now, k) || (orig[k].equipment == e && Finished(orig[k], now))
  {
    if HasFinishedBefore(orig, e, now, k + 1) && !(orig[k].equipment == e && Finished(orig[k], now)) {
      var j :| 0 <= j < k + 1 && orig[j].equipment == e && Finished(orig[j], now);
      assert j < k;
    }
  }

  lemma ReleaseStepKeepsInv(db: LabDb, k: nat, now: int, orig: seq<LabBooking>, eq0: map<EquipmentId, EquipmentStatus>)
    requires ReleaseInv(db, k, now, orig, eq0) && k < |orig|
    ensures ReleaseInv(ReleaseStep(db, k, now), k + 1, now, orig, eq0)
  {
    var b := db.bookings[k];
    var r := ReleaseStep(db, k, now);
    forall e | e in eq0
      ensures r.equipment[e] == ReleasedStatus(orig, eq0, e, now, k + 1)
    {
      FinishedBeforeStep(orig, e, now, k);
      if Finished(b, now) {
        StillInUseUnchanged(r.bookings, orig, b.equipment, now);
      }
    }
  }

  lemma {:induction false} ReleasePassResult(db: LabDb, k: nat, now: int,
                                             orig: seq<LabBooking>, eq0: map<EquipmentId, EquipmentStatus>)
    requires ReleaseInv(db, k, now, orig, eq0)
    ensures ReleaseInv(ReleasePass(db, k, now), |orig|, now, orig, eq0)
    decreases |orig| - k
  {
    if k < |orig| {
      ReleaseStepKeepsInv(db, k, now, orig, eq0);
      ReleasePassResult(ReleaseStep(db, k, now), k + 1, now, orig, eq0);
    }
  }

  /** One tick of the job. */
  function SweepLab(db: LabDb, now: int): (r: LabDb)
    ensures |r.bookings| == |db.bookings|
    ensures forall j | 0 <= j < |db.bookings| :: r.bookings[j] == CompleteIfFinished(db.bookings[j], now)
    ensures r.equipment.Keys == db.equipment.Keys
    ensures forall e | e in db.equipment :: r.equipment[e] == SweptStatus(db.bookings, db.equipment, e, now)
  {
    var eq := ActivationPass(db.bookings, db.equipment, now);
    ActivationPassResult(db.bookings, db.equipment, now);
    assert ReleaseInv(LabDb(eq, db.bookings), 0, now, db.bookings, eq);
    ReleasePassResult(LabDb(eq, db.bookings), 0, now, db.bookings, eq);
    ReleasePass(LabDb(eq, db.bookings), 0, now)
  }

  // ---------------------------------------------------------------------
  // Properties of one tick
  // ---------------------------------------------------------------------

  /** Every equipment with a running booking is in use after the tick: the
      release pass cannot undo the activation, because a running booking
      ends after `now`. */
  lemma SweepActivatesRunning(db: LabDb, now: int, e: EquipmentId)
    requires e in db.equipment && HasStarted(db.bookings, e, now)
    ensures SweepLab(db, now).equipment[e] == InUse
  {
    var j :| 0 <= j < |db.bookings| && db.bookings[j].equipment == e && Started(db.bookings[j], now);
    assert StillInUse(db.bookings, e, now);
  }

  /** Exactly the active bookings that have ended are completed; every
      other booking is untouched, and no booking changes anything but its
      status. */
  lemma SweepCompletesEnded(db: LabDb, now: int, j: nat)
    requires j < |db.bookings|
    ensures var b := db.bookings[j];
      var b' := SweepLab(db, now).bookings[j];
      && (b.status == Active && b.end <= now ==> b'.status == Completed)
      && (b.status != Active || b.end > now ==> b' == b)
      && b'.equipment == b.equipment && b'.bookedBy == b.bookedBy
      && b'.start == b.start && b'.end == b.end
  {
  }

  /** The equipment of an ended booking is released when no active booking
      of it ends after `now`. */
  lemma SweepReleasesIdle(db: LabDb, now: int, e: EquipmentId)
    requires e in db.equipment
    requires HasFinished(db.bookings, e, now) && !StillInUse(db.bookings, e, now)
    ensures SweepLab(db, now).equipment[e] == Available
  {
  }

  /** An active booking of the equipment that has not started yet also
      prevents the release: the equipment keeps the status it had. */
  lemma FutureBookingBlocksRelease(db: LabDb, now: int, e: EquipmentId, j: nat)
    requires e in db.equipment && j < |db.bookings|
    requires db.bookings[j].equipment == e && db.bookings[j].status == Active
    requires now < db.bookings[j].start < db.bookings[j].end
    requires !HasStarted(db.bookings, e, now)
    ensures SweepLab(db, now).equipment[e] == db.equipment[e]
  {
    assert StillInUse(db.bookings, e, now);
  }

  /** Equipment with no running and no ended active booking keeps its status. */
  lemma SweepFrame(db: LabDb, now: int, e: EquipmentId)
    requires e in db.equipment
    requires !HasStarted(db.bookings, e, now) && !HasFinished(db.bookings, e, now)
    ensures SweepLab(db, now).equipment[e] == db.equipment[e]
  {
  }

  /** The status is overwritten whatever it was: equipment under maintenance
      with a running booking is marked in use. */
  lemma MaintenanceIsOverwritten(db: LabDb, now: int, e: EquipmentId)
    requires e in db.equipment && db.equipment[e] == Maintenance && HasStarted(db.bookings, e, now)
    ensures SweepLab(db, now).equipment[e] == InUse
  {
    SweepActivatesRunning(db, now, e);
  }

  /** After a tick no active booking is left ended. */
  lemma SweptBookingsSettled(db: LabDb, now: int)
    ensures var once := SweepLab(db, now);
      forall j | 0 <= j < |once.bookings| ::
        !Finished(once.bookings[j], now) && CompleteIfFinished(once.bookings[j], now) == once.bookings[j]
  {
  }

  /** A tick does not change which equipment has a running booking. */
  lemma SweepKeepsStarted(db: LabDb, now: int, e: EquipmentId)
    ensures HasStarted(SweepLab(db, now).bookings, e, now) == HasStarted(db.bookings, e, now)
  {
    var once := SweepLab(db, now);
    if HasStarted(db.bookings, e, now) {
      var j :| 0 <= j < |db.bookings| && db.bookings[j].equipment == e && Started(db.bookings[j], now);
      assert once.bookings[j] == db.bookings[j];
    }
    if HasStarted(once.bookings, e, now) {
      var j :| 0 <= j < |once.bookings| && once.bookings[j].equipment == e && Started(once.bookings[j], now);
      assert once.bookings[j] == db.bookings[j];
    }
  }

  /** A second tick leaves the status of every equipment as the first left it. */
  lemma SweptEquipmentStable(db: LabDb, now: int, e: EquipmentId)
    requires e in db.equipment
    ensures SweepLab(SweepLab(db, now), now).equipment[e] == SweepLab(db, now).equipment[e]
  {
    var once := SweepLab(db, now);
    SweptBookingsSettled(db, now);
    assert !HasFinished(once.bookings, e, now);
    SweepKeepsStarted(db, now, e);
    if HasStarted(db.bookings, e, now) {
      SweepActivatesRunning(db, now, e);
    }
  }

  /** A second tick leaves the bookings as the first left them. */
  lemma SweptBookingsStable(db: LabDb, now: int)
    ensures SweepLab(SweepLab(db, now), now).bookings == SweepLab(db, now).bookings
  {
    var once := SweepLab(db, now).bookings;
    var twice := SweepLab(SweepLab(db, now), now).bookings;
    SweptBookingsSettled(db, now);
    assert |twice| == |once|;
    forall j | 0 <= j < |once|
      ensures twice[j] == once[j]
    {
      assert twice[j] == CompleteIfFinished(once[j], now);
    }
  }

  /** A second tick leaves the equipment map as the first left it. */
  lemma SweptEquipmentMapStable(db: LabDb, now: int)
    ensures SweepLab(SweepLab(db, now), now).equipment == SweepLab(db, now).equipment
  {
    var once := SweepLab(db, now).equipment;
    var twice := SweepLab(SweepLab(db, now), now).equipment;
    assert twice.Keys == once.Keys == db.equipment.Keys;
    forall e | e in once
      ensures twice[e] == once[e]
    {
      SweptEquipmentStable(db, now, e);
    }
  }

  /** A second tick at the same instant changes nothing. */
  lemma SweepIdempotent(db: LabDb, now: int)
    ensures SweepLab(SweepLab(db, now), now) == SweepLab(db, now)
  {
    SweptBookingsStable(db, now);
    SweptEquipmentMapStable(db, now);
  }
}
