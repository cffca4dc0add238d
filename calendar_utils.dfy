/** Free-slot enumeration of the booking utility: the fixed daily opening window,
    the walk over back-to-back slots of one day, and the accumulation of the days
    that still have a free slot. Times are minutes since midnight of a day; a day
    is an integer index, so "today + n days" is `today + n`. */
module CalendarUtils {
  import opened TimeFormat

  /** Opening hour, closing hour and slot length used throughout the utility. */
  const StartHour: nat := 8
  const EndHour: nat := 20
  const SlotDuration: nat := 30

  /** How many days the multi-day search looks at when the caller does not say. */
  const DaysAhead: int := 7

  /** The calendar provider's event listing: for a day and a window
      [timeMin, timeMax) in minutes, the number of events it returns. */
  type Provider = (int, nat, nat) -> nat

  /** The daily window and the slot length a search runs with. */
  datatype Window = Window(startHour: nat, endHour: nat, duration: nat)

  /** A datetime's hour lies in 0..23 and the walk advances only for a positive
      slot length. */
  predicate ValidWindow(w: Window) {
    w.startHour <= 23 && w.endHour <= 23 && w.duration > 0
  }

  const Default: Window := Window(StartHour, EndHour, SlotDuration)

  function StartMinute(w: Window): nat { 60 * w.startHour }
  function EndMinute(w: Window): nat { 60 * w.endHour }

  /** One day's record in the result of the multi-day search. */
  datatype DayEntry = DayEntry(date: int, slots: seq<string>)

  /** A slot [start, start + duration) is available exactly when the provider
      lists no event for that window. */
  predicate IsTimeSlotAvailable(events: Provider, day: int, start: nat, duration: nat) {
    events(day, start, start + duration) == 0
  }

  // ---------------------------------------------------------------------------
  // Specification of one day
  // ---------------------------------------------------------------------------

  /** The start of every whole slot from `from` onwards that ends by `end`. */
  function Candidates(from: nat, end: nat, duration: nat): seq<nat>
    requires duration > 0
    decreases end - from
  {
    if from + duration <= end then [from] + Candidates(from + duration, end, duration) else []
  }

  /** The starts among `starts` whose slot the provider reports free, in order. */
  function FreeStarts(events: Provider, day: int, starts: seq<nat>, duration: nat): seq<nat>
  {
    if starts == [] then []
    else if IsTimeSlotAvailable(events, day, starts[0], duration) then
      [starts[0]] + FreeStarts(events, day, starts[1..], duration)
    else
      FreeStarts(events, day, starts[1..], duration)
  }

  /** The "HH:MM" texts of a list of starts. */
  function Render(starts: seq<nat>): seq<string>
  {
    if starts == [] then [] else [FormatHHMM(starts[0])] + Render(starts[1..])
  }

  /** The free starts among the candidates from `from` onwards. */
  function FreeStartsFrom(events: Provider, day: int, from: nat, end: nat, duration: nat): seq<nat>
    requires duration > 0
  {
    FreeStarts(events, day, Candidates(from, end, duration), duration)
  }

  /** The free starts of a day under a window. */
  function DayFreeStarts(events: Provider, day: int, w: Window): seq<nat>
    requires ValidWindow(w)
  {
    FreeStartsFrom(events, day, StartMinute(w), EndMinute(w), w.duration)
  }

  /** What the slot walk of one day returns. */
  function FreeSlots(events: Provider, day: int, w: Window): seq<string>
    requires ValidWindow(w)
  {
    Render(DayFreeStarts(events, day, w))
  }

  predicate StrictlyAscending(s: seq<nat>) {
    forall i, j :: 0 <= i < j < |s| ==> s[i] < s[j]
  }

  // ---------------------------------------------------------------------------
  // The slot walk of one day
  // ---------------------------------------------------------------------------

  /** Walks the day's window slot by slot and keeps the text of every start whose
      slot the provider reports free. */
  method GetFreeSlotsForDate(events: Provider, day: int, w: Window) returns (slots: seq<string>)
    requires ValidWindow(w)
    ensures slots == FreeSlots(events, day, w)
  {
    var endTime := EndMinute(w);
    var current := StartMinute(w);
    ghost var kept: seq<nat> := [];
    slots := [];
    while current + w.duration <= endTime
      invariant slots == Render(kept)
      invariant kept + FreeStartsFrom(events, day, current, endTime, w.duration) == DayFreeStarts(events, day, w)
      decreases endTime - current
    {
      WalkStep(events, day, current, endTime, w.duration);
      ghost var rest := FreeStartsFrom(events, day, current + w.duration, endTime, w.duration);
      if IsTimeSlotAvailable(events, day, current, w.duration) {
        AppendAssoc(kept, [current], rest);
        RenderSnoc(kept, current);
        slots := slots + [FormatHHMM(current)];
        kept := kept + [current];
      } else {
        assert [] + rest == rest;
      }
      current := current + w.duration;
    }
    assert FreeStartsFrom(events, day, current, endTime, w.duration) == [];
    assert kept + [] == kept;
  }

  lemma AppendAssoc<T>(a: seq<T>, b: seq<T>, c: seq<T>)
    ensures (a + b) + c == a + (b + c)
  {
  }

  /** One step of the walk: the first candidate, if its slot is free, followed
      by the free starts among the remaining candidates. */
  lemma WalkStep(events: Provider, day: int, current: nat, end: nat, duration: nat)
    requires duration > 0 && current + duration <= end
    ensures FreeStartsFrom(events, day, current, end, duration)
      == (if IsTimeSlotAvailable(events, day, current, duration) then [current] else [])
         + FreeStartsFrom(events, day, current + duration, end, duration)
  {
    var rest := Candidates(current + duration, end, duration);
    assert Candidates(current, end, duration) == [current] + rest;
    assert ([current] + rest)[1..] == rest;
  }

  /** Rendering one more start appends its text. */
  lemma {:induction false} RenderSnoc(starts: seq<nat>, x: nat)
    ensures Render(starts + [x]) == Render(starts) + [FormatHHMM(x)]
  {
    if starts != [] {
      assert (starts + [x])[1..] == starts[1..] + [x];
      RenderSnoc(starts[1..], x);
    } else {
      assert [] + [x] == [x];
    }
  }

  // ---------------------------------------------------------------------------
  // Properties of one day
  // ---------------------------------------------------------------------------

  /** The k-th candidate starts k slots after `from`. */
  lemma {:induction false} CandidatesAt(from: nat, end: nat, duration: nat, k: nat)
    requires duration > 0
    requires k < |Candidates(from, end, duration)|
    ensures Candidates(from, end, duration)[k] == from + k * duration
    decreases end - from
  {
    if k > 0 {
      CandidatesAt(from + duration, end, duration, k - 1);
      assert (k - 1) * duration + duration == k * duration;
    }
  }

  /** The candidates cover the window up to a remainder shorter than a slot:
      `|c|` slots fit between `from` and `end`, one more does not. */
  lemma {:induction false} CandidatesCover(from: nat, end: nat, duration: nat)
    requires duration > 0
    ensures var n := |Candidates(from, end, duration)|;
      (n > 0 ==> from + n * duration <= end) && end < from + n * duration + duration
    decreases end - from
  {
    var n := |Candidates(from, end, duration)|;
    if from + duration <= end {
      CandidatesCover(from + duration, end, duration);
      assert (n - 1) * duration + duration == n * duration;
    }
  }

  lemma DivUnique(a: nat, d: nat, q: nat, r: nat)
    requires d > 0 && r < d && a == q * d + r
    ensures a / d == q
  {
    var q', r' := a / d, a % d;
    assert a == q' * d + r';
    if q' < q {
      MulMonotone(q', q, d);
      MulStep(q', d);
      MulMonotoneEq(q' + 1, q, d);
    } else if q < q' {
      MulMonotone(q, q', d);
      MulStep(q, d);
      MulMonotoneEq(q + 1, q', d);
    }
  }

  lemma MulStep(q: nat, d: nat)
    ensures (q + 1) * d == q * d + d
  {
  }

  lemma MulMonotoneEq(i: nat, j: nat, d: nat)
    requires i <= j
    ensures i * d <= j * d
  {
  }

  /** There are (end - from) / duration candidates, and the candidates are
      `from + k * duration` for k = 0, 1, ...; what is left of the window after
      the last one is shorter than a slot and is never offered. */
  lemma CandidatesShape(from: nat, end: nat, duration: nat)
    requires duration > 0
    ensures var c := Candidates(from, end, duration);
      |c| == (if from <= end then (end - from) / duration else 0)
      && (forall k :: 0 <= k < |c| ==> c[k] == from + k * duration)
      && end < from + |c| * duration + duration
  {
    var c := Candidates(from, end, duration);
    CandidatesCover(from, end, duration);
    forall k | 0 <= k < |c| ensures c[k] == from + k * duration {
      CandidatesAt(from, end, duration, k);
    }
    if from <= end {
      if |c| == 0 {
        DivUnique(end - from, duration, 0, end - from);
      } else {
        DivUnique(end - from, duration, |c|, end - from - |c| * duration);
      }
    }
  }

  /** Every candidate slot lies inside the window: no slot runs past closing. */
  lemma {:induction false} CandidatesInWindow(from: nat, end: nat, duration: nat)
    requires duration > 0
    ensures forall x :: x in Candidates(from, end, duration) ==> from <= x && x + duration <= end
    decreases end - from
  {
    if from + duration <= end {
      CandidatesInWindow(from + duration, end, duration);
    }
  }

  /** The candidates are strictly ascending, hence free of duplicates. */
  lemma CandidatesAscending(from: nat, end: nat, duration: nat)
    requires duration > 0
    ensures StrictlyAscending(Candidates(from, end, duration))
  {
    var c := Candidates(from, end, duration);
    CandidatesShape(from, end, duration);
    forall i, j | 0 <= i < j < |c| ensures c[i] < c[j] {
      MulMonotone(i, j, duration);
    }
  }

  lemma MulMonotone(i: nat, j: nat, d: nat)
    requires i < j && d > 0
    ensures i * d < j * d
  {
  }

  /** A start is kept exactly when it is a candidate and its slot is free. */
  lemma {:induction false} FreeStartsMembers(events: Provider, day: int, starts: seq<nat>, duration: nat, x: nat)
    ensures x in FreeStarts(events, day, starts, duration)
      <==> x in starts && IsTimeSlotAvailable(events, day, x, duration)
  {
    if starts != [] {
      FreeStartsMembers(events, day, starts[1..], duration, x);
      assert starts == [starts[0]] + starts[1..];
    }
  }

  /** The walk never keeps more starts than it was given. */
  lemma {:induction false} FreeStartsLength(events: Provider, day: int, starts: seq<nat>, duration: nat)
    ensures |FreeStarts(events, day, starts, duration)| <= |starts|
  {
    if starts != [] {
      FreeStartsLength(events, day, starts[1..], duration);
    }
  }

  /** When every slot is free, every start is kept. */
  lemma {:induction false} FreeStartsAllFree(events: Provider, day: int, starts: seq<nat>, duration: nat)
    requires forall i :: 0 <= i < |starts| ==> IsTimeSlotAvailable(events, day, starts[i], duration)
    ensures FreeStarts(events, day, starts, duration) == starts
  {
    if starts != [] {
      FreeStartsAllFree(events, day, starts[1..], duration);
      assert starts == [starts[0]] + starts[1..];
    }
  }

  /** Keeping some starts of a strictly ascending list keeps it strictly
      ascending: the result is an in-order selection. */
  lemma {:induction false} FreeStartsAscending(events: Provider, day: int, starts: seq<nat>, duration: nat)
    requires StrictlyAscending(starts)
    ensures StrictlyAscending(FreeStarts(events, day, starts, duration))
  {
    if starts != [] {
      var tail := starts[1..];
      assert StrictlyAscending(tail) by {
        forall i, j | 0 <= i < j < |tail| ensures tail[i] < tail[j] {
          assert tail[i] == starts[i + 1] && tail[j] == starts[j + 1];
        }
      }
      FreeStartsAscending(events, day, tail, duration);
      var rt := FreeStarts(events, day, tail, duration);
      if IsTimeSlotAvailable(events, day, starts[0], duration) {
        var r := [starts[0]] + rt;
        forall j | 0 < j < |r| ensures starts[0] < r[j] {
          FreeStartsMembers(events, day, tail, duration, r[j]);
          assert r[j] in rt;
          var m :| 0 <= m < |tail| && tail[m] == r[j];
          assert starts[m + 1] == r[j];
        }
        forall i, j | 0 <= i < j < |r| ensures r[i] < r[j] {
          if i > 0 {
            assert r[i] == rt[i - 1] && r[j] == rt[j - 1];
          }
        }
      }
    }
  }

  /** The texts are the renderings of the starts, position by position. */
  lemma {:induction false} RenderAt(starts: seq<nat>)
    ensures |Render(starts)| == |starts|
    ensures forall i :: 0 <= i < |starts| ==> Render(starts)[i] == FormatHHMM(starts[i])
  {
    if starts != [] {
      RenderAt(starts[1..]);
    }
  }

  /** A day's free starts are exactly the candidates whose slot is free; each
      lies inside the window, below midnight. */
  lemma DayFreeStartsMembers(events: Provider, day: int, w: Window, x: nat)
    requires ValidWindow(w)
    ensures x in DayFreeStarts(events, day, w)
      <==> (x in Candidates(StartMinute(w), EndMinute(w), w.duration)
            && IsTimeSlotAvailable(events, day, x, w.duration))
    ensures x in DayFreeStarts(events, day, w)
      ==> StartMinute(w) <= x && x + w.duration <= EndMinute(w) && x < 1440
  {
    CandidatesInWindow(StartMinute(w), EndMinute(w), w.duration);
    FreeStartsMembers(events, day, Candidates(StartMinute(w), EndMinute(w), w.duration), w.duration, x);
  }

  /** The i-th text the walk returns is the rendering of the i-th free start. */
  lemma FreeSlotAt(events: Provider, day: int, w: Window, i: nat)
    requires ValidWindow(w)
    requires i < |FreeSlots(events, day, w)|
    ensures i < |DayFreeStarts(events, day, w)|
    ensures ParseHHMM(FreeSlots(events, day, w)[i]) == Some(DayFreeStarts(events, day, w)[i])
  {
    var f := DayFreeStarts(events, day, w);
    RenderAt(f);
    var x := f[i];
    assert x in f;
    DayFreeStartsMembers(events, day, w, x);
    assert FreeSlots(events, day, w)[i] == FormatHHMM(x);
    ParseFormat(x);
  }

  /** Each text the walk returns reads back as a start inside the window whose
      slot the provider reports free. */
  lemma FreeSlotsSound(events: Provider, day: int, w: Window)
    requires ValidWindow(w)
    ensures var r := FreeSlots(events, day, w);
      forall i :: 0 <= i < |r| ==>
        ParseHHMM(r[i]).Some?
        && StartMinute(w) <= ParseHHMM(r[i]).value
        && ParseHHMM(r[i]).value + w.duration <= EndMinute(w)
        && IsTimeSlotAvailable(events, day, ParseHHMM(r[i]).value, w.duration)
  {
    var f := DayFreeStarts(events, day, w);
    var r := FreeSlots(events, day, w);
    forall i | 0 <= i < |r|
      ensures ParseHHMM(r[i]).Some?
      ensures StartMinute(w) <= ParseHHMM(r[i]).value
      ensures ParseHHMM(r[i]).value + w.duration <= EndMinute(w)
      ensures IsTimeSlotAvailable(events, day, ParseHHMM(r[i]).value, w.duration)
    {
      FreeSlotAt(events, day, w, i);
      DayFreeStartsMembers(events, day, w, f[i]);
    }
  }

  /** Every free candidate of the day appears among the texts the walk returns. */
  lemma FreeSlotsComplete(events: Provider, day: int, w: Window, x: nat)
    requires ValidWindow(w)
    requires x in Candidates(StartMinute(w), EndMinute(w), w.duration)
    requires IsTimeSlotAvailable(events, day, x, w.duration)
    ensures FormatHHMM(x) in FreeSlots(events, day, w)
  {
    var f := DayFreeStarts(events, day, w);
    DayFreeStartsMembers(events, day, w, x);
    RenderAt(f);
    var i :| 0 <= i < |f| && f[i] == x;
    assert FreeSlots(events, day, w)[i] == FormatHHMM(x);
  }

  /** The walk returns its texts in ascending order of start, so no text twice,
      and at most (end - start) / duration of them. */
  lemma FreeSlotsDistinct(events: Provider, day: int, w: Window)
    requires ValidWindow(w)
    ensures StrictlyAscending(DayFreeStarts(events, day, w))
    ensures var r := FreeSlots(events, day, w);
      (forall i, j :: 0 <= i < j < |r| ==> r[i] != r[j])
      && |r| <= (if StartMinute(w) <= EndMinute(w) then (EndMinute(w) - StartMinute(w)) / w.duration else 0)
  {
    var c := Candidates(StartMinute(w), EndMinute(w), w.duration);
    var f := DayFreeStarts(events, day, w);
    var r := FreeSlots(events, day, w);
    CandidatesShape(StartMinute(w), EndMinute(w), w.duration);
    CandidatesAscending(StartMinute(w), EndMinute(w), w.duration);
    FreeStartsAscending(events, day, c, w.duration);
    FreeStartsLength(events, day, c, w.duration);
    RenderAt(f);
    forall i, j | 0 <= i < j < |r| ensures r[i] != r[j] {
      DayFreeStartsMembers(events, day, w, f[i]);
      DayFreeStartsMembers(events, day, w, f[j]);
      FormatInjective(f[i], f[j]);
    }
  }

  /** With the utility's own window the candidates are 480 + 30 k for
      k = 0..23. */
  lemma DefaultCandidates()
    ensures var c := Candidates(StartMinute(Default), EndMinute(Default), SlotDuration);
      |c| == 24 && forall k :: 0 <= k < 24 ==> c[k] == 480 + 30 * k
  {
    CandidatesShape(StartMinute(Default), EndMinute(Default), SlotDuration);
  }

  /** When every slot is free the walk over the utility's own window returns
      24 texts, from "08:00" through "19:30". */
  lemma DefaultAllFree(events: Provider, day: int)
    requires forall s: nat :: IsTimeSlotAvailable(events, day, s, SlotDuration)
    ensures var r := FreeSlots(events, day, Default);
      |r| == 24 && r[0] == "08:00" && r[23] == "19:30"
  {
    var c := Candidates(StartMinute(Default), EndMinute(Default), SlotDuration);
    DefaultCandidates();
    FreeStartsAllFree(events, day, c, SlotDuration);
    RenderAt(c);
    assert c[0] == 480 && c[23] == 1170;
    assert FormatHHMM(480) == "08:00";
    assert FormatHHMM(1170) == "19:30";
  }

  // ---------------------------------------------------------------------------
  // Several days
  // ---------------------------------------------------------------------------

  /** The slot walk of every day under one window, as a function of the day. */
  function DayWalk(events: Provider, w: Window): (walk: int -> seq<string>)
    requires ValidWindow(w)
  {
    d => FreeSlots(events, d, w)
  }

  /** The entries the multi-day search collects over the day offsets 0..n-1,
      in day order: one per day whose walk `slotsOf` finds a free slot. */
  function DaysWithSlots(slotsOf: int -> seq<string>, today: int, n: int): seq<DayEntry>
    decreases n
  {
    if n <= 0 then []
    else
      DaysWithSlots(slotsOf, today, n - 1)
      + (if slotsOf(today + n - 1) != [] then [DayEntry(today + n - 1, slotsOf(today + n - 1))] else [])
  }

  /** Searching one day further adds that day's entry, if it has a free slot. */
  lemma DaysWithSlotsStep(slotsOf: int -> seq<string>, today: int, n: nat)
    ensures DaysWithSlots(slotsOf, today, n + 1)
      == DaysWithSlots(slotsOf, today, n)
         + (if slotsOf(today + n) != [] then [DayEntry(today + n, slotsOf(today + n))] else [])
  {
  }

  /** Runs the slot walk for `daysAhead` consecutive days from `today` and keeps
      each day that has at least one free slot. */
  method GetNextAvailableSlots(events: Provider, today: int, w: Window, daysAhead: int := DaysAhead) returns (next: seq<DayEntry>)
    requires ValidWindow(w)
    ensures next == DaysWithSlots(DayWalk(events, w), today, daysAhead)
  {
    next := [];
    var offset := 0;
    while offset < daysAhead
      invariant 0 <= offset && (daysAhead > 0 ==> offset <= daysAhead)
      invariant daysAhead <= 0 ==> offset == 0
      invariant next == DaysWithSlots(DayWalk(events, w), today, offset)
    {
      var daySlots := GetFreeSlotsForDate(events, today + offset, w);
      SearchStep(events, w, today, offset, next, daySlots);
      if daySlots != [] {
        next := next + [DayEntry(today + offset, daySlots)];
      }
      offset := offset + 1;
    }
  }

  /** One day of the search: what the loop body does to the entries found so far. */
  lemma SearchStep(events: Provider, w: Window, today: int, offset: nat, next: seq<DayEntry>, daySlots: seq<string>)
    requires ValidWindow(w)
    requires next == DaysWithSlots(DayWalk(events, w), today, offset)
    requires daySlots == FreeSlots(events, today + offset, w)
    ensures (if daySlots != [] then next + [DayEntry(today + offset, daySlots)] else next)
      == DaysWithSlots(DayWalk(events, w), today, offset + 1)
  {
    var walk := DayWalk(events, w);
    assert walk(today + offset) == daySlots;
    DaysWithSlotsStep(walk, today, offset);
    assert next + [] == next;
  }

  /** The search returns at most `daysAhead` entries, none when `daysAhead <= 0`,
      and only days of the range, in strictly ascending order. */
  lemma {:induction false} DaysWithSlotsDates(slotsOf: int -> seq<string>, today: int, n: int)
    ensures var r := DaysWithSlots(slotsOf, today, n);
      (n <= 0 ==> r == [])
      && |r| <= (if n <= 0 then 0 else n)
      && (forall e :: e in r ==> today <= e.date < today + n)
      && (forall i, j :: 0 <= i < j < |r| ==> r[i].date < r[j].date)
    decreases n
  {
    if n > 0 {
      DaysWithSlotsDates(slotsOf, today, n - 1);
    }
  }

  /** Every entry holds a non-empty slot list equal to that day's walk. */
  lemma {:induction false} DaysWithSlotsEntries(slotsOf: int -> seq<string>, today: int, n: int)
    ensures forall e :: e in DaysWithSlots(slotsOf, today, n) ==> e.slots != [] && e.slots == slotsOf(e.date)
    decreases n
  {
    if n > 0 {
      var r := DaysWithSlots(slotsOf, today, n);
      var prev := DaysWithSlots(slotsOf, today, n - 1);
      var day := today + n - 1;
      var tail := if slotsOf(day) != [] then [DayEntry(day, slotsOf(day))] else [];
      assert r == prev + tail;
      DaysWithSlotsEntries(slotsOf, today, n - 1);
      forall e | e in r ensures e.slots != [] && e.slots == slotsOf(e.date) {
        if e !in prev {
          assert e in tail;
        }
      }
    }
  }

  /** No day is dropped except the ones without a free slot: a day of the range
      has its entry, holding that day's walk, exactly when the walk finds a slot. */
  lemma {:induction false} DaysWithSlotsComplete(slotsOf: int -> seq<string>, today: int, n: int, k: int)
    requires 0 <= k < n
    ensures slotsOf(today + k) != []
      <==> DayEntry(today + k, slotsOf(today + k)) in DaysWithSlots(slotsOf, today, n)
    decreases n
  {
    var r := DaysWithSlots(slotsOf, today, n);
    var prev := DaysWithSlots(slotsOf, today, n - 1);
    var day := today + n - 1;
    var tail := if slotsOf(day) != [] then [DayEntry(day, slotsOf(day))] else [];
    assert r == prev + tail;
    DaysWithSlotsEntries(slotsOf, today, n);
    if k < n - 1 {
      DaysWithSlotsComplete(slotsOf, today, n - 1, k);
    }
  }
}
