# Free-slot enumeration of a calendar booking utility

This project models the free-slot enumeration in `calendar_utils.py` of a small booking service.

Each day the utility offers the same opening window, from 08:00 (`START_HOUR`) to 20:00 (`END_HOUR`). It cuts the window into back-to-back 30-minute slots (`SLOT_DURATION`). For each slot it asks the calendar provider for the events in `[start, start + 30 min)`. The slot is free when the provider lists none. The free slots come back as `"HH:MM"` texts.

A second operation repeats this for `days_ahead` consecutive days from today (7 by default). It keeps one `{date, slots}` record for each day that has at least one free slot.

The model works in minutes since midnight, and a day is an integer index. Three things the code reaches outside itself for become parameters:

- The provider's event listing becomes `CalendarUtils.Provider`: a function from a day and a `[timeMin, timeMax)` window to the number of events listed. The service object and the calendar id are folded into this function.
- The current date becomes the `today` day index.
- The daily window and the slot length become a `CalendarUtils.Window`. Proofs hold for any valid window, and `CalendarUtils.Default` is the utility's own 8, 20, 30.

Modules:

- `TimeFormat` (`time_format.dfy`): the `strftime("%H:%M")` rendering of a start minute, and a reader that inverts it.
- `CalendarUtils` (`calendar_utils.dfy`): the two loops as methods, the specification functions they are proved against, and the lemmas about those functions.
- `BusyList` (`busy_list.dfy`): a **stand-in** provider backed by a list of events, with a few worked days. The utility itself only relies on "available iff the provider lists no event for the slot's window". Which events the provider lists is the provider's own rule. The stand-in assumes the usual half-open overlap rule.

How the proofs are organised:

- `GetFreeSlotsForDate` is the `while` loop of `get_free_slots_for_date`. It is proved equal to `FreeSlots`, which is the rendering of the free starts among `Candidates`.
- `GetNextAvailableSlots` is the `for` loop of `get_next_available_slots`. It is proved equal to `DaysWithSlots`.
- The lemmas then state what those functions mean: which starts are offered, their bounds, order and count, the round trip of the time texts, and which days are kept.

Three features of the code shape the model:

- The code has one fixed 08:00–20:00 window for every day. It has no per-weekday opening hours.
- It asks the provider about each slot separately. It does not subtract busy intervals itself.
- Its multi-day search visits exactly `days_ahead` days and returns per-day records. It does not stop after a requested number of slots.

## Model

| member | source | states |
|---|---|---|
| `CalendarUtils.GetFreeSlotsForDate` | calendar_utils.py:30-42 | The slot walk of one day returns exactly `FreeSlots`: the "HH:MM" texts of the free candidate starts, in walk order. The loop terminates for any positive slot length. |
| `CalendarUtils.GetNextAvailableSlots` | calendar_utils.py:44-57 | The search over `days_ahead` days (default 7) returns exactly `DaysWithSlots` for that day's walk. The result is one entry per day with a free slot, in day order. |
| `CalendarUtils.WalkStep` | calendar_utils.py:37-40 | Proof step of the slot-walk loop (an unfolding of `FreeStartsFrom`): the current start is kept exactly when its slot is free, and the walk continues one slot later. |
| `CalendarUtils.SearchStep` | calendar_utils.py:49-55 | Proof step of the day-search loop: the day's record is appended exactly when its slot list is non-empty. |
| `CalendarUtils.DaysWithSlotsStep` | calendar_utils.py:48-55 | Proof step of the day-search loop (an unfolding of `DaysWithSlots`): one more day extends the previous result by at most that day's entry. |
| `CalendarUtils.RenderSnoc` | calendar_utils.py:39 | Appending one start appends its "HH:MM" text to the rendered list. |
| `CalendarUtils.CandidatesAt` | calendar_utils.py:35-40 | The k-th candidate start is `start + k * duration`. |
| `CalendarUtils.CandidatesCover` | calendar_utils.py:37 | The candidate slots fit in the window. One more slot would run past closing, so a trailing remainder shorter than a slot is never offered. |
| `CalendarUtils.CandidatesShape` | calendar_utils.py:32-40 | There are exactly `(end - start) / duration` candidates (none when start > end), and candidate k is `start + k * duration`. |
| `CalendarUtils.CandidatesInWindow` | calendar_utils.py:32-37 | Every candidate `s` satisfies `start <= s` and `s + duration <= end`. |
| `CalendarUtils.CandidatesAscending` | calendar_utils.py:35-40 | The candidate starts are strictly ascending. |
| `CalendarUtils.FreeStartsMembers` | calendar_utils.py:38-39 | A start is kept if and only if it is a candidate and the availability check passes for it. |
| `CalendarUtils.FreeStartsLength` | calendar_utils.py:38-39 | The filter never keeps more starts than it is given. |
| `CalendarUtils.FreeStartsAllFree` | calendar_utils.py:38-39 | When every slot is available, every candidate is kept. |
| `CalendarUtils.FreeStartsAscending` | calendar_utils.py:37-40 | The kept starts are an in-order selection, so a strictly ascending input stays strictly ascending. |
| `CalendarUtils.RenderAt` | calendar_utils.py:39 | The i-th text is the "HH:MM" rendering of the i-th kept start. |
| `CalendarUtils.DayFreeStartsMembers` | calendar_utils.py:32-39 | A day's free starts are exactly its free candidates, and each lies in the window before midnight. |
| `CalendarUtils.FreeSlotAt` | calendar_utils.py:39 | The i-th returned text reads back as the i-th free start. |
| `CalendarUtils.FreeSlotsSound` | calendar_utils.py:32-40 | Every returned text reads back as a start `s` with `start <= s`, `s + duration <= end` and the availability check passing. |
| `CalendarUtils.FreeSlotsComplete` | calendar_utils.py:37-39 | Every candidate whose slot is available has its text in the result. |
| `CalendarUtils.FreeSlotsDistinct` | calendar_utils.py:37-40 | The free starts ascend strictly, the texts are pairwise distinct, and there are at most `(end - start) / duration` of them. |
| `CalendarUtils.DefaultCandidates` | calendar_utils.py:5-7 | With 8, 20 and 30 the candidates are `480 + 30 k` for `k = 0..23`. |
| `CalendarUtils.DefaultAllFree` | calendar_utils.py:5-7 | With 8, 20 and 30 and every slot available, the day has 24 texts, from "08:00" through "19:30". |
| `CalendarUtils.DaysWithSlotsDates` | calendar_utils.py:48-49 | There are at most `days_ahead` entries, and none when `days_ahead <= 0`. Every entry's day lies in `today .. today + days_ahead - 1`, and the days ascend strictly. |
| `CalendarUtils.DaysWithSlotsEntries` | calendar_utils.py:50-55 | Every entry holds a non-empty slot list equal to that day's walk. |
| `CalendarUtils.DaysWithSlotsComplete` | calendar_utils.py:51-55 | A day in the range has its entry exactly when its walk finds a slot. No other day is dropped. |
| `TimeFormat.FormatShape` | calendar_utils.py:39 | Every rendering has the form `DD:DD`: five characters, digits around a colon. |
| `TimeFormat.ParseFormat` | calendar_utils.py:39 | Reading a rendering gives back the minute of the day (`m % 1440`), so `m` itself below midnight. |
| `TimeFormat.FormatParse` | calendar_utils.py:39 | Every text that reads as a time is the rendering of that time. |
| `TimeFormat.FormatInjective` | calendar_utils.py:39 | Distinct minutes of one day render as distinct texts. |
| `BusyList.CountListedZero` | calendar_utils.py:27-28 | The stand-in listing is empty exactly when no event matches the query window. |
| `BusyList.AvailableIffNoOverlap` | calendar_utils.py:18-28 | Under the stand-in provider, a slot is available exactly when no event of that day overlaps `[start, start + duration)`. An event that only touches the slot leaves it free. |
| `BusyList.MorningCandidates` | calendar_utils.py:35-40 | A window of 08:00–10:00 with 30-minute slots has candidates 480, 510, 540 and 570. |
| `BusyList.MorningOneEventStarts` | calendar_utils.py:37-40 | An event from 08:30 to 09:00 removes only the 08:30 start. |
| `BusyList.MorningOneEvent` | calendar_utils.py:30-42 | The day above returns "08:00", "09:00", "09:30". The touching 09:00 slot stays free. |
| `BusyList.MorningFullyBooked` | calendar_utils.py:30-42 | An event covering the whole window leaves no free slot. |

## Left out

- `get_calendar_service` (calendar_utils.py:9-16): it loads a credentials file and builds the provider's client. This is I/O and a foreign library.
- The `events().list(...).execute()` call (calendar_utils.py:20-26) is a network request. It is abstracted as the `Provider` function. Which events it lists for a window is the provider's rule; `BusyList` is only a labelled stand-in for it.
- A failing provider call is not modelled. In the code, a provider or network error raises out of `is_time_slot_available`. It ends `get_free_slots_for_date` with no partial list (calendar_utils.py:38) and ends the whole `get_next_available_slots` search (calendar_utils.py:50). `Provider` is a total function, so both walks in the model always complete.
- `datetime.now()` (calendar_utils.py:45) is replaced by the `today` parameter.
- Date parsing and formatting (`strptime`, `strftime("%Y-%m-%d")`) and calendar arithmetic (calendar_utils.py:31, 49-50, 53) are library date handling. A date is a day index and `DayEntry.date` is that index, not a "YYYY-MM-DD" text.
- The `+ 'Z'` suffix on the query times (calendar_utils.py:22-23) is a wire-format detail of the provider's interface.
- `singleEvents` and `orderBy` in the query only shape the provider's answer. Only the number of listed events matters to the code.
- `main.py` and `main (7).py` are HTTP routing over other functions and are not part of this model. `config.py` only holds constants and reads credentials from the environment. Its weekday table is not used by `calendar_utils.py`.
- Slot lengths are whole minutes. A `timedelta` with seconds is not modelled.
- With a zero or negative slot length the source never returns normally. A zero length loops forever. A negative one walks backwards until `datetime` leaves its range and raises `OverflowError`. `ValidWindow` requires a positive length.
- Hours must lie in 0..23, as `datetime.replace(hour=...)` demands.
- Each slot is a separate remote query, so the provider may change between queries. The model treats the provider as one fixed function for the whole call.
