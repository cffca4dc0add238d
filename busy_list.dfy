/** A stand-in for the remote calendar provider. The utility itself only relies on
    "a slot is available when the provider lists no event for its window"; which
    events the provider lists for a window is the provider's rule. Here it is
    taken to be the usual half-open rule: an event [start, end) of the same day is
    listed for [timeMin, timeMax) when start < timeMax and timeMin < end. */
module BusyList {
  import opened TimeFormat
  import opened CalendarUtils

  /** An existing event of the calendar: day index and [start, end) in minutes. */
  datatype Event = Event(day: int, start: int, end: int)

  predicate Listed(e: Event, day: int, timeMin: int, timeMax: int) {
    e.day == day && e.start < timeMax && timeMin < e.end
  }

  /** How many of the events the provider lists for a query. */
  function CountListed(events: seq<Event>, day: int, timeMin: int, timeMax: int): nat
  {
    if events == [] then 0
    else
      var first := if Listed(events[0], day, timeMin, timeMax) then 1 else 0;
      first + CountListed(events[1..], day, timeMin, timeMax)
  }

  /** The provider backed by a fixed list of events. */
  function BusyProvider(events: seq<Event>): Provider
  {
    (day: int, timeMin: nat, timeMax: nat) => CountListed(events, day, timeMin, timeMax)
  }

  /** The query lists nothing exactly when no event is listed for the window. */
  lemma {:induction false} CountListedZero(events: seq<Event>, day: int, timeMin: int, timeMax: int)
    ensures CountListed(events, day, timeMin, timeMax) == 0
      <==> forall e :: e in events ==> !Listed(e, day, timeMin, timeMax)
  {
    if events != [] {
      CountListedZero(events[1..], day, timeMin, timeMax);
      assert events == [events[0]] + events[1..];
    }
  }

  /** Under this provider a slot [start, start + duration) is available exactly
      when no event of that day overlaps it; an event that only touches the slot
      at either end leaves it available. */
  lemma AvailableIffNoOverlap(events: seq<Event>, day: int, start: nat, duration: nat)
    ensures IsTimeSlotAvailable(BusyProvider(events), day, start, duration)
      <==> forall e :: e in events && e.day == day ==> e.end <= start || start + duration <= e.start
  {
    CountListedZero(events, day, start, start + duration);
  }

  /** The window 08:00-10:00 with 30-minute slots. */
  const Morning: Window := Window(8, 10, 30)

  lemma MorningCandidates()
    ensures Candidates(StartMinute(Morning), EndMinute(Morning), 30) == [480, 510, 540, 570]
  {
    var c := Candidates(StartMinute(Morning), EndMinute(Morning), 30);
    CandidatesShape(StartMinute(Morning), EndMinute(Morning), 30);
    assert |c| == 4;
  }

  /** An event from 08:30 to 09:00 blocks exactly the 08:30 slot; the 09:00 slot,
      which only touches it, stays free. */
  lemma MorningOneEventStarts(day: int)
    ensures DayFreeStarts(BusyProvider([Event(day, 510, 540)]), day, Morning) == [480, 540, 570]
  {
    var events := [Event(day, 510, 540)];
    var p := BusyProvider(events);
    AvailableIffNoOverlap(events, day, 480, 30);
    AvailableIffNoOverlap(events, day, 510, 30);
    AvailableIffNoOverlap(events, day, 540, 30);
    AvailableIffNoOverlap(events, day, 570, 30);
    WalkStep(p, day, 480, 600, 30);
    WalkStep(p, day, 510, 600, 30);
    WalkStep(p, day, 540, 600, 30);
    WalkStep(p, day, 570, 600, 30);
    assert FreeStartsFrom(p, day, 600, 600, 30) == [];
  }

  /** So the walk of that morning returns "08:00", "09:00" and "09:30". */
  lemma MorningOneEvent(day: int)
    ensures FreeSlots(BusyProvider([Event(day, 510, 540)]), day, Morning) == ["08:00", "09:00", "09:30"]
  {
    MorningOneEventStarts(day);
    RenderAt([480, 540, 570]);
    assert FormatHHMM(480) == "08:00";
    assert FormatHHMM(540) == "09:00";
    assert FormatHHMM(570) == "09:30";
  }

  /** An event covering the whole window leaves no free slot. */
  lemma MorningFullyBooked(day: int)
    ensures FreeSlots(BusyProvider([Event(day, 480, 600)]), day, Morning) == []
  {
    var events := [Event(day, 480, 600)];
    var p := BusyProvider(events);
    AvailableIffNoOverlap(events, day, 480, 30);
    AvailableIffNoOverlap(events, day, 510, 30);
    AvailableIffNoOverlap(events, day, 540, 30);
    AvailableIffNoOverlap(events, day, 570, 30);
    WalkStep(p, day, 480, 600, 30);
    WalkStep(p, day, 510, 600, 30);
    WalkStep(p, day, 540, 600, 30);
    WalkStep(p, day, 570, 600, 30);
    assert FreeStartsFrom(p, day, 600, 600, 30) == [];
  }
}
