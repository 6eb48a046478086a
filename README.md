# Classroom availability engine, modelled in Dafny

This project models the core of a Django app that tells students which
classrooms of a college are free right now, and until when, and lets them book
a free room. The core has four parts:

- **Schedule import** (`load_schedule` management command)
  - Reads CSV rows of recurring classes.
  - Stores each raw row in `ScheduleDump`.
  - Upserts `College`, `Building`, `Room` and one `Schedule` per parsed weekday.
  - Parses day strings such as `MoWeFr`, times such as `09:00 AM` and dates such as `01/31/2022`.
- **Grid rebuild** (`populate_availabilities`)
  - Replaces the `RoomAvailability` table with a weekly grid: one entry per room, per weekday Monday..Friday, per 5-minute block from 08:00 to 19:55.
  - Each entry records whether a class is in session at that block.
- **Queries**
  - `get_available_rooms` lists the rooms free now, each with the time until which it stays free, latest first.
  - `get_all_rooms` lists every room, sorted by college, building and name.
- **Bookings** (in `views.py`)
  - The conflict check and save of a new booking.
  - Whether a room is occupied now, and when it is next available.
  - The next class start and the pre-filled end time.
  - Cancelling a booking.
  - The active, future and historical lists of a user's bookings.

## Modules

| module | file | contents |
|---|---|---|
| `Text` | `text.dfy` | Python's `strip` and `upper`, lexicographic string order, decimal digits |
| `Wrappers` | `wrappers.dfy` | `Option` and `Result` |
| `Sorting` | `sorting.dfy` | a stable insertion sort, standing for `list.sort` and `order_by`, with its sortedness, permutation and stability lemmas; queryset filtering |
| `Models` | `models.dfy` | the records of `models.py`, their unique keys, `time_display`, `get_or_create`, and a `Catalog` class holding the tables that the import updates in place |
| `LoadSchedule` | `load_schedule.dfy` | `parse_days`, with the day map as data, as its scanning loop and as a reference function |
| `ScheduleFields` | `schedule_fields.dfy` | `parse_time` and `parse_date`, with the `strptime` formats `%I:%M %p` and `%m/%d/%Y` written out |
| `ScheduleImport` | `schedule_import.dfy` | `import_to_dump`, `process_to_normalized` and `handle` as methods on the `Catalog`, each tied to a reference function of the old tables |
| `AvailabilityGrid` | `availability.dfy` | the grid as a function of the rooms and schedules, and the rebuild's nested loops as methods of an `AvailabilityTable` class |
| `EmptyRooms` | `empty_rooms.dfy` | `get_available_rooms` |
| `AllRooms` | `all_rooms.dfy` | `get_all_rooms` |
| `Bookings` | `bookings.dfy` | the booking logic of `views.py`, with a `BookingStore` class for the `RoomBooking` table |

## Modelling choices

- A time of day is a whole number of minutes since midnight (0..1439). Stored booking times are whole minutes.
  - The current instant `now.time()` is a minute `now` plus a flag `late`, true when the instant is some seconds past the start of that minute.
  - A stored time is before the instant exactly when it is before the minute, or is the minute itself and `late` holds (`BeforeInstant`). So `end_time < now.time()` and `end_time >= now.time()` keep their boundaries; `start_time <= now.time()`, `start_time > now.time()` and `end_time > now.time()` do not depend on the seconds.
- A date is the number yyyymmdd, so `<` is chronological order (`DateOfOrder`).
- Database tables are sequences in primary-key order.
  - A queryset without `order_by` is read in that order.
  - `first()` is the lowest id.
  - `get_or_create` on a key made of all of a record's fields appends the record unless an equal one is present.
- The current date and time are parameters, and so are the query filters. Nothing reads a clock.
- A CSV row is a record of strings. The header, the file and the row count come from the caller.
- The in-place updates of the source stay in place:
  - `Catalog` methods modify the import tables.
  - `AvailabilityTable.Rebuild` and `WriteDay` fill the grid with the source's two loops.
  - `BookingStore.Book` and `Cancel` append a booking or flip its `active` flag.
  - The loops of `parse_days`, `get_available_rooms`, `get_all_rooms` and the room-status scan are methods with loop invariants, each proved equal to a reference function.

## Behaviours of the code worth noting

- **Day parsing order.**
  - `parse_days` tries a 2-character key first, then 3 characters, then 4 to 8 (`load_schedule.py:179-194`).
  - Every longer key starts with a 2-character key (`DayMapPrefixClosed`), so the 3- to 8-character branches never fire (`ShortKeysWin`).
  - As a result, `"SATURDAY"` is read as `SA` then `TU` and gives Tu and Sa (`SaturdayUpperCase`).
- **Unrounded minute block.** `get_available_rooms` does not round the current minute down to the grid's 5-minute steps. At 12:03 no entry matches and the list is empty (`UnroundedMinuteFindsNothing`).
- **"Until" as text.**
  - The "until" time is text with an unpadded hour and is sorted as text, so "9:00" sorts ahead of "10:00" (`NineBeforeTen`).
  - The default block 959 renders as "23:59" (`UntilDefault`).
- **`active` is not filtered.** The booking conflict query (`views.py:460-467`) and the room-status scan (`views.py:408-418`) do not filter on `active`, so cancelled bookings still block a new booking and still mark the room occupied.
- **Fixed date.** `get_available_rooms` uses a fixed instant (`empty_rooms.py:12`), 2025-10-02 12:00. The comment calls it a Wednesday, but it is a Thursday. The model takes the weekday and time as parameters.
- **Fallback end time.** When the pre-filled end passes midnight, it shows 20:00 (`views.py:488-492`). A start at 23:30 therefore pre-fills an end before it (`LateStartFallback`).

## Model

| member | source | states |
|---|---|---|
| Text.Strip | classrooms/management/commands/load_schedule.py:73-84 | the result is the input with leading and trailing whitespace removed: it is a slice of the input starting after the leading spaces, its ends are not whitespace, everything after it is whitespace, and it is empty exactly when the input is all whitespace |
| Text.StripIdempotent | classrooms/management/commands/load_schedule.py:150 | stripping twice is stripping once |
| Text.StripPadded | classrooms/management/commands/load_schedule.py:143 | whitespace around a core whose ends are not whitespace is removed and the core is kept |
| Text.StripParts | classrooms/management/commands/load_schedule.py:143 | conversely, a string with something left after strip is that text with whitespace before and after it |
| Text.StrLtTotal | classrooms/utils/all_rooms.py:28 | Python's lexicographic string order is total; with StrLtIrreflexive and StrLtTransitive it is a strict order |
| Text.NatToStringValue | classrooms/utils/empty_rooms.py:62 | the decimal text of a number reads back as that number |
| Text.DigitStringsOrder | classrooms/utils/empty_rooms.py:66 | on digit strings of equal length the string order is the numeric order |
| Sorting.SortBy | classrooms/utils/all_rooms.py:28 | sorting is a permutation of its input |
| Sorting.SortBySorted | classrooms/utils/all_rooms.py:28 | for a strict weak order the sorted list is ordered |
| Sorting.SortByStable | classrooms/utils/empty_rooms.py:66 | stability of list.sort: the elements tied with any y keep their input order |
| Sorting.SortByDistinct | classrooms/utils/all_rooms.py:28 | sorting a list without duplicates gives one without duplicates |
| Sorting.WhereMembers | classrooms/views.py:541 | a queryset filter keeps exactly the records that satisfy the condition |
| Models.ClockTime | classrooms/models.py:121-122 | a clock reading hour:minute is recovered from the time value by division and remainder by 60 |
| Models.PadTwo | classrooms/models.py:112 | the `02d` format gives at least two digits, exactly two below 100, and reads back as the number |
| Models.TimeDisplay | classrooms/models.py:107-112 | time_display is five characters, two digits, a colon and two digits, for blocks below 960 |
| Models.TimeDisplayAgrees | classrooms/models.py:107-112 | for a grid block the displayed hour is 08..19 and hours and minutes read back give 08:00 plus the block, the clock time the room views derive from the same block |
| Models.Upsert | classrooms/management/commands/load_schedule.py:97-112 | get_or_create on a whole-record key: the record is afterwards present, nothing else is added, existing rows keep their place, a present record changes nothing and uniqueness is kept |
| Models.UpsertAll | classrooms/management/commands/load_schedule.py:127-135 | get_or_create of each record in order: the table holds the old rows and the new records, old rows keep their place and uniqueness is kept |
| Models.UpsertAllPresent | classrooms/management/commands/load_schedule.py:127-135 | upserting records that are all present changes nothing |
| Models.UpsertAllIdempotent | classrooms/management/commands/load_schedule.py:127-135 | repeating the same upserts leaves the table unchanged |
| Models.Catalog.GetOrCreateCollege | classrooms/management/commands/load_schedule.py:97-99 | the College table becomes its upsert with the name; the other tables are unchanged |
| Models.Catalog.GetOrCreateBuilding | classrooms/management/commands/load_schedule.py:102-105 | the Building table becomes its upsert with (name, college); the other tables are unchanged |
| Models.Catalog.GetOrCreateRoom | classrooms/management/commands/load_schedule.py:108-112 | the Room table becomes its upsert with (name, college, building); the other tables are unchanged |
| Models.Catalog.GetOrCreateSchedule | classrooms/management/commands/load_schedule.py:128-135 | the Schedule table becomes its upsert on the six-field unique key of models.py; the other tables are unchanged |
| Models.Catalog.CreateDump | classrooms/management/commands/load_schedule.py:72-85 | ScheduleDump has no unique key, so create always appends the row; the other tables are unchanged |
| LoadSchedule.LookupFinds | classrooms/management/commands/load_schedule.py:163-171 | a key is in the day map exactly when some day's group of spellings holds it |
| LoadSchedule.DayMapInitials | classrooms/management/commands/load_schedule.py:163-171 | every key of the day map starts with one of M, T, W, F, S |
| LoadSchedule.MatchLongName | classrooms/management/commands/load_schedule.py:188-194 | the for loop over lengths 4..8 returns the first length whose slice is a key, or 0 |
| LoadSchedule.KeyLengthAt | classrooms/management/commands/load_schedule.py:179-194 | the branch chain tries length 2, then 3, then 4..8, and returns the matched length (2..8, the slice is a key) or 0 |
| LoadSchedule.CollectDays | classrooms/management/commands/load_schedule.py:173-196 | the while loop collects the same set as the reference scan: add the code of a matched key and skip past it, else skip one character |
| LoadSchedule.InCanonicalOrder | classrooms/management/commands/load_schedule.py:198 | the sorted list holds exactly the found codes that are canonical, strictly in Mo..Su order |
| LoadSchedule.SelectIncreasing | classrooms/management/commands/load_schedule.py:198 | selecting found codes by walking the canonical order gives strictly increasing positions |
| LoadSchedule.ParseDays | classrooms/management/commands/load_schedule.py:157-198 | parse_days equals DaysOf: a blank string gives no days, and every day is a canonical code, with no repeats, in canonical order |
| LoadSchedule.DaysOf | classrooms/management/commands/load_schedule.py:157-198 | the parsed days of an all-whitespace string are empty; every day is a canonical code; days are strictly in Mo..Su order |
| LoadSchedule.DayMapPrefixClosed | classrooms/management/commands/load_schedule.py:163-171 | every key of three or more characters begins with a two-character key |
| LoadSchedule.ShortKeysWin | classrooms/management/commands/load_schedule.py:178-196 | when the day map is prefix closed, only 2-character keys ever match, so the 3..8-character branches are dead code |
| LoadSchedule.ScanIsPairScan | classrooms/management/commands/load_schedule.py:177-196 | the scan is the simpler scan that only tries 2-character slices |
| LoadSchedule.SaturdayUpperCase | classrooms/management/commands/load_schedule.py:163-198 | "SATURDAY" parses as Tu and Sa, since "SA" and then "TU" match |
| LoadSchedule.UnknownCharactersSkipped | classrooms/management/commands/load_schedule.py:195-196 | unrecognised characters are dropped: "XxMoYy" parses as Mo |
| LoadSchedule.GluedCodes | classrooms/management/commands/load_schedule.py:179-181 | glued codes "MoWeFr" parse as Mo, We, Fr |
| LoadSchedule.LongNamesReadAsPairs | classrooms/management/commands/load_schedule.py:179-196 | "Monday/Wednesday" parses as Mo, We through their 2-character prefixes |
| LoadSchedule.LowerCaseIgnored | classrooms/management/commands/load_schedule.py:163-171 | lower-case "mo" is not a key, so it yields no day |
| ScheduleFields.SpaceMeridiemInert | classrooms/management/commands/load_schedule.py:152 | the AM/PM spacing leaves text without letters unchanged and carries the after-digit state across it |
| ScheduleFields.MeridiemSpaced | classrooms/management/commands/load_schedule.py:152 | an AM/PM word in any case gets a space in front exactly when it follows a digit |
| ScheduleFields.To24 | classrooms/management/commands/load_schedule.py:153 | the 12-hour clock with %p maps hours 1..12 to 0..23: AM exactly when the hour is below 12, with the hour kept modulo 12 |
| ScheduleFields.To24Inverse | classrooms/management/commands/load_schedule.py:153 | To24 and From24 are inverse bijections between (1..12, AM/PM) and 0..23 |
| ScheduleFields.OneToTwelve | classrooms/management/commands/load_schedule.py:153 | %I reads one or two digits valued 1..12 followed by the separator |
| ScheduleFields.MinuteThenSpace | classrooms/management/commands/load_schedule.py:153 | %M reads one or two digits below 60 and must be followed by whitespace |
| ScheduleFields.Clock12Accepts | classrooms/management/commands/load_schedule.py:153 | what '%I:%M %p' accepts is an hour 1..12 and a minute below 60, each as one or two digits, a colon between them, whitespace, and AM or PM in any letter case, and nothing else; the time read is that hour, converted by To24, and minute |
| ScheduleFields.ParseTimeAccepts | classrooms/management/commands/load_schedule.py:147-155 | what parse_time accepts is such a 12-hour time with AM/PM glued to the minutes or after whitespace, and whitespace around the whole, and nothing else; the time returned is the hour and minute written |
| ScheduleFields.Clock12Reads | classrooms/management/commands/load_schedule.py:153 | any hour 1..12 and minute below 60 written as digits, a colon, whitespace and AM or PM, reads back as that time |
| ScheduleFields.ParseTimeReads | classrooms/management/commands/load_schedule.py:147-155 | parse_time accepts surrounding whitespace, any case of am/pm, and AM/PM glued to the digits, and returns the written time |
| ScheduleFields.NormalizedClockText | classrooms/management/commands/load_schedule.py:150-153 | normalising glued or spaced AM/PM text gives the upper-case, spaced form |
| ScheduleFields.ParseTimeNeedsMeridiem | classrooms/management/commands/load_schedule.py:153-155 | every accepted time string ends, once stripped, in m or M: a time without AM/PM is rejected |
| ScheduleFields.ParseTimeRejectsHour | classrooms/management/commands/load_schedule.py:153-155 | hour fields 00 and 13..99 are rejected |
| ScheduleFields.Date12Accepts | classrooms/management/commands/load_schedule.py:143 | what '%m/%d/%Y' accepts is a month 1..12 as one or two digits, '/', a day as one or two digits or a space and one digit, '/', and a four-digit year, and nothing else, and only when the calendar has that day; the date read is that day |
| ScheduleFields.ParseDateAccepts | classrooms/management/commands/load_schedule.py:140-145 | what parse_date accepts is such a date with whitespace around it, and nothing else; the date returned is the day written |
| ScheduleFields.Date12Reads | classrooms/management/commands/load_schedule.py:143 | month/day/four-digit year, the day also as a space and one digit, reads back as that date exactly when the date exists |
| ScheduleFields.ParseDateReads | classrooms/management/commands/load_schedule.py:140-145 | parse_date accepts surrounding whitespace and a day written as a space and one digit, and returns the written date exactly when it exists, otherwise fails |
| ScheduleImport.RowFields | classrooms/management/commands/load_schedule.py:122-125 | the four date and time fields parse exactly when each one does, with the parsed values; a bad start date reports its own error first |
| ScheduleImport.DumpOf | classrooms/management/commands/load_schedule.py:72-85 | a dump row is built exactly when all four fields parse |
| ScheduleImport.ParseAgrees | classrooms/management/commands/load_schedule.py:72-125 | the dump row and the normalised path parse the same fields and name the same college, building and room |
| ScheduleImport.ImportStep | classrooms/management/commands/load_schedule.py:69-91 | import_to_dump appends the stripped, parsed row when the fields parse and otherwise fails and changes nothing |
| ScheduleImport.ImportToDump | classrooms/management/commands/load_schedule.py:69-91 | the method's new tables and result are those of ImportStep |
| ScheduleImport.UpsertPlaces | classrooms/management/commands/load_schedule.py:96-112 | the college, building and room of the row are upserted and the row's room is returned |
| ScheduleImport.UpsertSchedules | classrooms/management/commands/load_schedule.py:127-135 | the Schedule table becomes the upsert of one schedule per parsed day |
| ScheduleImport.ProcessToNormalized | classrooms/management/commands/load_schedule.py:93-138 | the method's new tables and result are those of NormalizedStep |
| ScheduleImport.NormalizedStep | classrooms/management/commands/load_schedule.py:93-138 | process_to_normalized never touches the ScheduleDump table |
| ScheduleImport.SchedulesForMembers | classrooms/management/commands/load_schedule.py:127-135 | the schedules created for a row are exactly those of its room on each parsed day with the parsed dates and times |
| ScheduleImport.NormalizedSchedules | classrooms/management/commands/load_schedule.py:127-135 | on a row with days and valid fields the Schedule table gains exactly the row's schedules, at most one per day, and stays duplicate-free |
| ScheduleImport.NormalizedNoDays | classrooms/management/commands/load_schedule.py:114-120 | a row without valid days succeeds after creating college, building and room, and adds no schedule |
| ScheduleImport.NormalizedParseError | classrooms/management/commands/load_schedule.py:122-138 | a bad date or time fails the row after its college, building and room were created, and adds no schedule |
| ScheduleImport.NormalizedIdempotent | classrooms/management/commands/load_schedule.py:97-135 | processing the same row twice is processing it once |
| ScheduleImport.NormalizedConsistent | classrooms/management/commands/load_schedule.py:97-135 | the step keeps the unique keys and the foreign keys of the normalised tables |
| ScheduleImport.RowStep | classrooms/management/commands/load_schedule.py:45-61 | a row counts as processed exactly when its enabled steps succeed |
| ScheduleImport.Run | classrooms/management/commands/load_schedule.py:44-61 | the processed count is the number of succeeding rows, at most the number of rows |
| ScheduleImport.HandleRow | classrooms/management/commands/load_schedule.py:45-61 | one iteration of the row loop: its new tables and its processed flag are RowStep's |
| ScheduleImport.ImportRows | classrooms/management/commands/load_schedule.py:43-61 | the row loop's tables and processed count are those of the reference run over the parsed rows |
| ScheduleImport.Handle | classrooms/management/commands/load_schedule.py:30-67 | handle reports the total and the processed count, leaves the tables as the run does, and then rebuilds the grid from the new rooms and schedules |
| ScheduleImport.RunStep | classrooms/management/commands/load_schedule.py:44-61 | the run over one more row is the run so far followed by that row's step |
| ScheduleImport.RunSplit | classrooms/management/commands/load_schedule.py:57-61 | a run over two parts is the run over the first followed by the run over the second, counts added |
| ScheduleImport.RunConsistent | classrooms/management/commands/load_schedule.py:43-61 | a whole import keeps the unique and foreign keys |
| ScheduleImport.RunDump | classrooms/management/commands/load_schedule.py:46-47 | the dump table gains exactly the dump rows of the parseable rows, in order, unless dumping is skipped |
| ScheduleImport.RowStepFacts | classrooms/management/commands/load_schedule.py:45-52 | a step only adds, a skipped row changes nothing normalised, a processed row is afterwards covered, and a covered row changes nothing |
| ScheduleImport.RunCoversAll | classrooms/management/commands/load_schedule.py:44-61 | after the import every processed row's college, building, room and schedules are present |
| ScheduleImport.RunSettled | classrooms/management/commands/load_schedule.py:44-61 | an import of rows already covered leaves the normalised tables as they were |
| ScheduleImport.HandleRerun | classrooms/management/commands/load_schedule.py:30-67 | importing the same file twice leaves the normalised tables as after the first import, with the same processed count, while the dump gains the same rows again |
| AvailabilityGrid.Cell | classrooms/management/commands/populate_availabilities.py:24-39 | a grid entry copies the room's building and college, and is available exactly when no schedule of that room on that day's code has start <= 08:00 + offset <= end |
| AvailabilityGrid.GridUpTo | classrooms/management/commands/populate_availabilities.py:19-41 | the first b blocks of the grid hold one entry per room per block |
| AvailabilityGrid.AvailabilityTable.Rebuild | classrooms/management/commands/populate_availabilities.py:11-48 | the table is deleted and refilled with exactly the grid of the given rooms and schedules, and the count is rooms x 5 x 144 |
| AvailabilityGrid.AvailabilityTable.WriteDay | classrooms/management/commands/populate_availabilities.py:22-41 | one weekday's 144 bulk_create batches extend the table by that day's grid entries |
| AvailabilityGrid.BatchIsBlock | classrooms/management/commands/populate_availabilities.py:31-41 | the bulk_create list is the grid block of every room at one minute |
| AvailabilityGrid.GridStep | classrooms/management/commands/populate_availabilities.py:22-41 | each minute step appends exactly one block |
| AvailabilityGrid.GridAt | classrooms/management/commands/populate_availabilities.py:19-41 | the entry of room k at weekday wd and offset mb sits at index (wd x 144 + mb / 5) x rooms + k |
| AvailabilityGrid.GridIndex | classrooms/management/commands/populate_availabilities.py:19-41 | every index of the grid holds the Cell of its room, weekday and offset |
| AvailabilityGrid.GridEntries | classrooms/management/commands/populate_availabilities.py:19-41 | the grid has rooms x 5 x 144 entries and holds exactly the Cells of every room, weekday 0..4 and offset 0, 5, .., 715 |
| AvailabilityGrid.GridEntryIsCell | classrooms/management/commands/populate_availabilities.py:19-41 | every grid entry is the Cell of some room, weekday and offset in range |
| AvailabilityGrid.CellInGrid | classrooms/management/commands/populate_availabilities.py:19-41 | every such Cell is in the grid |
| AvailabilityGrid.FreeEntryFree | classrooms/management/commands/populate_availabilities.py:24-38 | a free entry names a listed room with its own college and building, and no schedule of that room is in session then |
| AvailabilityGrid.OccupiedEntryInSession | classrooms/management/commands/populate_availabilities.py:24-38 | an occupied entry is in range and some schedule of the room is in session then |
| AvailabilityGrid.GridUnique | classrooms/management/commands/populate_availabilities.py:19-41 | for distinct rooms the grid respects RoomAvailability's unique key (room, weekday, minute_block) of models.py line 102 |
| AvailabilityGrid.GridSameSessions | classrooms/management/commands/populate_availabilities.py:24-28 | two schedule tables with the same weekday sessions give the same grid |
| AvailabilityGrid.GridIgnoresWeekends | classrooms/management/commands/populate_availabilities.py:19-20 | schedules on Sa, Su or any non-weekday code do not change the grid |
| AvailabilityGrid.GridIgnoresDates | classrooms/management/commands/populate_availabilities.py:24-28 | the grid ignores schedules' start and end dates |
| EmptyRooms.CurrentBlock | classrooms/utils/empty_rooms.py:19 | the current block is below 720 and not rounded to the grid's 5 minutes |
| EmptyRooms.Candidates | classrooms/utils/empty_rooms.py:22-32 | the candidates are exactly the free entries at the weekday and block that pass the college and building filters |
| EmptyRooms.FirstOccupied | classrooms/utils/empty_rooms.py:35-44 | the subquery's value is the least occupied block after now for that room and weekday, and is absent exactly when there is none |
| EmptyRooms.NextOccupiedLeast | classrooms/utils/empty_rooms.py:35-50 | next_occupied is the least later occupied block, or 959 when there is none |
| EmptyRooms.GetAvailableRooms | classrooms/utils/empty_rooms.py:7-68 | the method returns AvailableRooms: the sentinel out of hours, else the candidates' records sorted latest until first |
| EmptyRooms.RecordsSnoc | classrooms/utils/empty_rooms.py:54-63 | the result loop appends one record per candidate |
| EmptyRooms.SentinelOutOfHours | classrooms/utils/empty_rooms.py:15-17 | the one-element message list comes back exactly at weekends and outside 08:00..19:59 |
| EmptyRooms.UntilDefault | classrooms/utils/empty_rooms.py:45-62 | the default 959 renders as 23:59 |
| EmptyRooms.LaterUntilOrder | classrooms/utils/empty_rooms.py:66 | the reverse text order on available_until is a strict weak order |
| EmptyRooms.AvailableRoomsOrdered | classrooms/utils/empty_rooms.py:54-66 | in hours the result is a permutation of the candidates' records, sorted latest until first, with tied records in query order |
| EmptyRooms.UntilNineAndTen | classrooms/utils/empty_rooms.py:62 | 9:00 and 10:00 are rendered unpadded, so "10:00" sorts below "9:00" |
| EmptyRooms.NineBeforeTen | classrooms/utils/empty_rooms.py:62-66 | a room free until 9:00 is listed ahead of one free until 10:00, since the sort compares text |
| EmptyRooms.UnroundedMinuteFindsNothing | classrooms/utils/empty_rooms.py:19-26 | at a minute that is not a multiple of 5 the rebuilt grid has no entry at that block, so the list is empty |
| EmptyRooms.FreeRoomListed | classrooms/utils/empty_rooms.py:19-63 | without filters, at a 5-minute mark in hours, every room with no class in session is listed |
| EmptyRooms.ListedRoomFree | classrooms/utils/empty_rooms.py:19-63 | every listed room is a room of the table with no class in session now |
| EmptyRooms.ListedFromCandidate | classrooms/utils/empty_rooms.py:22-63 | every listed record comes from a candidate entry with that name, college and building |
| AllRooms.SelectedRooms | classrooms/utils/all_rooms.py:10-16 | the filtered rooms are exactly those of the table passing the college and building filters; no filter keeps the table |
| AllRooms.GetAllRooms | classrooms/utils/all_rooms.py:6-30 | the method returns the selected rooms' records sorted by (college, building, name) |
| AllRooms.KeyOrder | classrooms/utils/all_rooms.py:28 | the tuple key order is a strict weak order |
| AllRooms.KeyLtTotal | classrooms/utils/all_rooms.py:28 | two different records are ordered one way or the other |
| AllRooms.AllRoomsSorted | classrooms/utils/all_rooms.py:19-28 | the result is ordered by the key and is a permutation of the selected rooms' records |
| AllRooms.AllRoomsMembers | classrooms/utils/all_rooms.py:10-25 | a record is listed exactly when its room is in the table and passes both filters |
| AllRooms.ListingsDistinct | classrooms/utils/all_rooms.py:19-25 | distinct rooms give distinct records |
| AllRooms.UnfilteredListsEveryRoom | classrooms/utils/all_rooms.py:10-28 | without filters every room of the table is listed exactly once |
| Bookings.ClausesAreClosedOverlap | classrooms/views.py:460-467 | the three conflict clauses catch every closed-interval overlap and, for well-formed intervals, nothing else |
| Bookings.TouchingIntervalsConflict | classrooms/views.py:464-466 | 10:00-10:30 conflicts with a new 10:30-11:00, since touching ends count |
| Bookings.KeyTakenConflicts | classrooms/views.py:460-477 | a booking holding the unique key (room, booking_date, start_time) of models.py line 127 also conflicts, so with well-formed stored bookings the unique-key failure is never reached |
| Bookings.BookingStore.Book | classrooms/views.py:460-480 | a conflict leaves the store unchanged; a conflict-free request whose key is taken fails with IntegrityError; otherwise an active booking with the next id is appended; ids stay unique and increase along the table |
| Bookings.CancelCheck | classrooms/views.py:633-649 | already cancelled exactly when inactive; already ended exactly when active and dated before today, or today with an end before the current instant (seconds included); otherwise cancelled |
| Bookings.Find | classrooms/views.py:631 | the lookup finds a booking with that id and user, and finds none exactly when there is none |
| Bookings.BookingStore.Cancel | classrooms/views.py:624-656 | not found leaves the store; otherwise the outcome is CancelCheck's, and only a Cancelled outcome sets that booking's active flag to false |
| Bookings.EndingNowCancellable | classrooms/views.py:639-645 | an active booking of today is cancelled exactly when its end is after the current minute, or is that minute and the instant is at its start; in the seconds after the end minute begins, it is already ended |
| Bookings.CancelTwice | classrooms/views.py:633-636 | a cancelled booking cannot be cancelled again |
| Bookings.OthersBookingNotFound | classrooms/views.py:630-655 | another user's booking is not found |
| Bookings.RoomStatus | classrooms/views.py:399-425 | the room is free exactly when no booking of today has start <= now.time() <= end, seconds included; when it is not free, next available is the first end after now in the list's start order |
| Bookings.FirstEndAfter | classrooms/views.py:421-425 | the first booking in order that ends after now gives its end, and there is none exactly when all end by now |
| Bookings.FirstEndAfterAt | classrooms/views.py:421-425 | the loop's first hit is FirstEndAfter |
| Bookings.OccupiedByAnyBooking | classrooms/views.py:408-418 | today's bookings list holds every booking of the room today, so any in-progress one marks the room occupied, whatever its active flag |
| Bookings.NextAvailableAfterNow | classrooms/views.py:420-425 | next available is after now and is the end of one of today's bookings |
| Bookings.NextClassTime | classrooms/views.py:434-450 | the next class is the least occupied block after now for the room and weekday, at 08:00 plus that block, and is absent exactly when there is none |
| Bookings.NextClassOnGrid | classrooms/views.py:439-450 | on the rebuilt grid the next class is on a weekday, from 08:00 and before 20:00, and a schedule of the room is in session then |
| Bookings.DefaultEndTime | classrooms/views.py:484-503 | the pre-filled end never passes a next class after start; it is the earlier of an hour later and the next class, 20:00 when the hour wraps past midnight, and an hour later when the next class is not after start |
| Bookings.LateStartFallback | classrooms/views.py:487-494 | a start at 23:30 pre-fills 20:00, and one at 22:59 pre-fills 23:59 |
| Bookings.ClassificationOrders | classrooms/views.py:571-580 | the booking page orders are strict weak orders |
| Bookings.ActiveBookingIsFirst | classrooms/views.py:530-568 | there is an active booking exactly when some filtered booking is in progress at the instant; it is one of them, none comes before it in the table, and with ids growing along the table it has the lowest id of them |
| Bookings.FutureMembers | classrooms/views.py:571-574 | future bookings are exactly the filtered bookings not yet started, ordered by date then start |
| Bookings.HistoricalIgnoresActive | classrooms/views.py:577-580 | excluding the active booking's id changes nothing, since an in-progress booking is never past |
| Bookings.HistoricalMembers | classrooms/views.py:577-580 | historical bookings are exactly the filtered bookings already ended, latest date then latest end first |
| Bookings.ClassificationDisjoint | classrooms/views.py:563-580 | no booking is both future and historical, and an in-progress one is neither |

## Left out

- Authentication, e-mail verification, templates, messages and redirects: they carry no availability logic.
- `RoomBookingForm` validation (forms.py is not part of this model). `Book` accepts any start and end the form passed.
- `is_school_hours`, which `views.py:24` imports from `empty_rooms.py`, is not defined there. Its result is not modelled, and booking is modelled as if the room page allowed it.
- File I/O of the CSV, the header skip and the row count (`load_schedule.py:35-41`): the rows and their total are inputs.
- Progress and error output to stdout (`load_schedule.py:41`, `54-60`, `63-67`; `populate_availabilities.py:43-47`; `empty_rooms.py:13`).
- `transaction.atomic` and concurrency: every operation is one sequential step over the tables.
- The `IntegrityError` branch of `import_to_dump` (`load_schedule.py:86-89`) is unreachable, because `ScheduleDump` has no unique key.
- `max_length` limits of the character fields: database truncation and errors are not modelled.
- Whitespace is ASCII and Latin-1 only, and upper-casing is ASCII only. Python's full Unicode rules are not modelled.
- `%p` is read in the C locale (AM and PM).
- Pagination of the historical bookings (`views.py:582-591`) and the filter option lists (`views.py:593-605`).
- The `date_from` and `date_to` text filters: they are given as optional dates, and a date that fails `strptime` is an absent one.
- `user_bookings` of the room page (`views.py:520-521`): a plain filtered, ordered list.
- Django's `order_by` and `list.sort` are modelled by one stable sort, with `order_by` ties kept in table order. The database may order ties differently.
- `created_at` of a booking: it only records the clock.
- Bookings.HistoricalIgnoresActive: assumes booking ids are non-zero and unique, as the auto-increment key guarantees.
- EmptyRooms.FreeRoomListed: stated without the college and building filters. With filters, `ListedRoomFree` and `Candidates` give the other direction.
