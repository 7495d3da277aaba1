/** Weekly timetable entries as the room-booking admission check reads them
    (backend/src/modules/room/roomBooking.controller.js, lines 42-71).

    An entry holds its times as "HH:MM" strings; admission splits them on
    ':' and converts both halves with `Number`, so a malformed time becomes
    NaN and an entry with a NaN bound never clashes. */
module Timetable {
  import opened Text

  datatype TimetableEntry = TimetableEntry(
    roomId: string,
    dayOfWeek: string,
    startTime: string,
    endTime: string)

  /** `const [h, m] = t.split(":").map(Number); h * 60 + m`. A time with
      no ':' leaves `m` undefined, which `Number` turns into NaN. */
  function ClockMinutes(t: string): (r: JsNumber)
    ensures ':' !in t ==> r.NaN?
  {
    var parts := Split(t, ':');
    assert ':' !in t ==> |parts| == 1 by {
      if ':' !in t {
        SplitWithoutSeparator(t, ':');
      }
    }
    var h := ToNumber(parts[0]);
    var m := if |parts| >= 2 then ToNumber(parts[1]) else NaN;
    Add(Mul(h, Int(60)), m)
  }

  /** `startMinutes < entryEnd && endMinutes > entryStart`: every comparison
      with NaN is false, so a clash needs both bounds to read as numbers, and
      it is then a half-open overlap, in which touching ends do not clash. */
  function EntryClash(e: TimetableEntry, startMinutes: int, endMinutes: int): (r: bool)
    ensures r <==>
      && ClockMinutes(e.startTime).Int? && ClockMinutes(e.endTime).Int?
      && startMinutes < ClockMinutes(e.endTime).value
      && ClockMinutes(e.startTime).value < endMinutes
    ensures ClockMinutes(e.endTime) == Int(startMinutes) ==> !r
    ensures ClockMinutes(e.startTime) == Int(endMinutes) ==> !r
  {
    var entryStart := ClockMinutes(e.startTime);
    var entryEnd := ClockMinutes(e.endTime);
    Less(Int(startMinutes), entryEnd) && Less(entryStart, Int(endMinutes))
  }

  /** The "HH:MM" spelling of an hour and a minute, each padded to two digits. */
  function Clock(h: nat, m: nat): string {
    PadStart(DecimalString(h), 2, '0') + ":" + PadStart(DecimalString(m), 2, '0')
  }

  /** A zero-padded two-digit field reads as its number. */
  lemma ToNumberOfField(n: nat)
    ensures ':' !in PadStart(DecimalString(n), 2, '0')
    ensures ToNumber(PadStart(DecimalString(n), 2, '0')) == Int(n)
  {
    var p := PadStart(DecimalString(n), 2, '0');
    PaddedDecimal(n, 2);
    assert forall i | 0 <= i < |p| :: p[i] != ':' by {
      assert forall i | 0 <= i < |p| :: IsDigit(p[i]);
    }
  }

  /** The "HH:MM" spelling splits into its two padded fields. */
  lemma SplitClock(h: nat, m: nat)
    ensures Split(Clock(h, m), ':') == [PadStart(DecimalString(h), 2, '0'), PadStart(DecimalString(m), 2, '0')]
  {
    var a := PadStart(DecimalString(h), 2, '0');
    var b := PadStart(DecimalString(m), 2, '0');
    ToNumberOfField(h);
    ToNumberOfField(m);
    assert Clock(h, m) == a + [':'] + b;
    SplitAppendField(a, b, ':');
    SplitWithoutSeparator(a, ':');
  }

  /** Reading a well-formed time gives `h * 60 + m`. */
  lemma ClockMinutesOfClock(h: nat, m: nat)
    ensures ClockMinutes(Clock(h, m)) == Int(h * 60 + m)
  {
    var parts := Split(Clock(h, m), ':');
    SplitClock(h, m);
    ToNumberOfField(h);
    ToNumberOfField(m);
    assert ToNumber(parts[0]) == Int(h) && ToNumber(parts[1]) == Int(m);
    assert Mul(Int(h), Int(60)) == Int(h * 60);
  }

  /** For an entry with well-formed times, a clash is exactly a half-open
      overlap of the two minute intervals: touching ends do not clash. */
  lemma ClashIsHalfOpenOverlap(e: TimetableEntry, sh: nat, sm: nat, eh: nat, em: nat,
                               startMinutes: int, endMinutes: int)
    requires e.startTime == Clock(sh, sm) && e.endTime == Clock(eh, em)
    ensures EntryClash(e, startMinutes, endMinutes)
        <==> startMinutes < eh * 60 + em && sh * 60 + sm < endMinutes
  {
    ClockMinutesOfClock(sh, sm);
    ClockMinutesOfClock(eh, em);
  }

  /** An entry whose time does not read as a number never clashes. */
  lemma MalformedEntryNeverClashes(e: TimetableEntry, startMinutes: int, endMinutes: int)
    requires ClockMinutes(e.startTime).NaN? || ClockMinutes(e.endTime).NaN?
    ensures !EntryClash(e, startMinutes, endMinutes)
  {
  }
}
