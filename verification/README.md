# DJGPP: calendar engine, DXE linker, DPMI server allocators

A Dafny model of the parts of DJGPP whose correctness is least obvious from reading any one
function, with proofs of what they promise. `dafny verify dfyconfig.toml` checks all of it.

Where the source updates structures, arrays or globals, the model does so too: methods with loops
on classes and arrays, each proved against a specification on values about which the properties
are then proved as lemmas.

**Calendar and time zones** (`zoneinfo/src/localtime.c`, `zoneinfo/src/strftime.c`). `Calendar`
defines the proleptic Gregorian calendar by walking from year to year and is the reference for
everything else; `StandardTime` shows that it is that of the POSIX formula. `TimeConversion` is
`timesub`; `LeapSeconds` the leap-second side of it and `time2posix`/`posix2time`; `LocalTime` is
`localsub` with its 400-year folding; `Normalization` and `MakeTime` are `time2sub` and `time2`;
`TypeGuessing` is `time1`; `LocalAnswers` says what they find for local time; `TimeGm` puts them
together for `timegm` and `timeoff`; `ZoneRules` is `transtime` and the rule branch of `tzparse`,
`RuleCycles` its rules over all years; `IsoWeek` the week number loop. `CInts` has the C integers:
`int` is 32 bits with its overflow checks modelled; `time_t` is any integer range of at least 32
bits, signed or unsigned, that wraps around where the search and the rules meet its end.

**DXE linker, resolver and loader** (`src/dxe/dxe3gen.c`, `src/dxe/dxe3res.c`,
`src/libc/dxe/dlopen.c`). `DxeFormat` has the byte tables and the walk over them, `DxeFilters` the
export filters, `DxeGenerator`, `DxePartition` and `DxeSymbols` the symbol loop of `write_dxe`,
`DxeModuleFile` the file it writes, `DxeLoader` what `dlopen` reads from it, `SymbolSets` and
`DxeResolver` the resolver.

**DPMI server allocators** (`src/mwdpmi/memory.c`, `src/mwdpmi/ldt.c`). `Bitmap` has the bit
macros, `HeapShape` the geometry of blocks, `ServerMemory` pages and heap with the file's globals
as the fields of one class, `RunSearch` the two searches for contiguous runs.

**Documentation tree** (`src/mkdoc/mkdoc.cc`). `MkdocTree` is the search tree with its linked
list.

`Sequences` has what several of them say about sequences.

## Results where code and promise differ

- `timegm` can report success with a time other than the one asked for. The first pass of `time2`
  may fail after `timesub` has already stored the year, and the second pass then reads that year.
  `TimeGm.SoundUnlessClobbered` gives the exact condition, `TimeGm.WideTimeClobbers` a request that
  meets it with a 64-bit `time_t`, and `TimeGm.SoundWhenAllShown` with `MakeTime.DjgppTimesShown`
  shows that it cannot be met with DJGPP's own `time_t`.
- The search of `time2sub` can miss a local time although exactly one time shows it. It relies on the
  clock of the zone, which skips local times at a transition; a local time that is skipped and then
  comes after all is not always found. `LocalAnswers.ClimbsExactly` and `LocalAnswers.GuidesExactly`
  have the exact condition for the search to be led to a request, and `LocalAnswers.HastyMissed` a
  zone with one that is missed. Requests that the clock comes to and never skips are found
  (`LocalAnswers.LocalIsSure`).
- `morecore` maps the pages that it takes without looking whether the page table of 1024 entries has
  room for them behind the core, whose entries begin with those of the server itself and of the
  bitmap. `ServerMemory.Memory.Morecore` has the exact condition: the entries in use and the pages
  taken are together at most 1024. Otherwise entries in use are overwritten, by a call that fails too,
  and a failing call gives back only the last 1024 pages. `ServerMemory.OverwritingCall` and
  `ServerMemory.LosingCall` are such calls.
- The table that `tzparse` compiles need not be in order, as `localsub` takes for granted. The loop
  goes through the year in which `time_t` ends, and the instants after its end wrap around
  (`ZoneRules.SortedExactly`). What `localsub` then shows is wrong for some times.
  `ZoneRules.TableRefinesRules` and `ZoneRules.LocalTimeFollowsRules` have the exact condition on the
  time, and `ZoneRules.SummerOf2105Missed` what it comes to with DJGPP's own `time_t`: for ordinary
  rules of the north, the daylight saving time of 2105 is shown as standard time and nothing else is
  wrong.
- The remainders in the weekday formula of `timesub`, which are to avoid overflow, do not for the
  first 70 years that it accepts; `TimeConversion.WeekdayFitsExactly` has the exact condition.

## Model

| member | source | states |
|---|---|---|
| Calendar.LeapDayCount | zoneinfo/src/localtime.c:1470-1475 | The closed form with its recursion for negative years counts the leap days between any two years, on both sides of year 0, as the year-by-year walk does. |
| Calendar.LeapsFloor | zoneinfo/src/localtime.c:1470-1475 | The recursion on negative years is floor division throughout. |
| Calendar.FieldOrderIsTimeOrder | zoneinfo/src/localtime.c:1703-1716 | On canonical fields `tmcomp` orders broken-down times exactly as their instants are ordered, and is 0 exactly on equal instants. |
| Calendar.DenotesUnique | zoneinfo/src/localtime.c:1575-1607 | The canonical broken-down time of an instant, weekday and day of the year included, is unique; `Civil` is that one. |
| StandardTime.CivilByStandard | zoneinfo/src/localtime.c:1575-1607 | The civil time of every instant satisfies the formula of IEEE Std 1003.1, XBD section 4.16, written with its numbers, with the weekday counted from Thursday, 1 January 1970, and the day of the year made up of month and day. |
| StandardTime.StandardIsCivil | zoneinfo/src/localtime.c:1575-1607 | And it is the only one that does. |
| TimeConversion.FindLeap | zoneinfo/src/localtime.c:1500-1519 | The leap-second scan finds the correction of the last entry at or before the time, and counts a run of consecutive inserted seconds when the time is one of them. |
| TimeConversion.FindYear | zoneinfo/src/localtime.c:1520-1543 | The year search terminates from any day, on either side of the epoch; it finds the year holding the day, with (days before the year) + tdays conserved, and fails exactly when that year is no `int`. |
| TimeConversion.SettleSeconds | zoneinfo/src/localtime.c:1557-1564 | The seconds come into one day and the total number of seconds stays the same. |
| TimeConversion.SettleYear | zoneinfo/src/localtime.c:1565-1574 | Moving the day into its year conserves the day, and fails exactly when the year is no `int`. |
| TimeConversion.WeekdayCorrect | zoneinfo/src/localtime.c:1582-1590 | The weekday formula, with truncating remainders, is the count of days since a Thursday modulo 7, for every year, in the integers of mathematics. |
| TimeConversion.WeekdayFitsExactly | zoneinfo/src/localtime.c:1579-1590 | All values that the formula and `leaps_thru_end_of` compute are `int`s if and only if the year is at least INT_MIN + 1970: the remainders that are to avoid overflow do not for 70 years that `timesub` accepts. |
| TimeConversion.FindMonth | zoneinfo/src/localtime.c:1599-1602 | The month and the day of the month are the ones in which the day of the year falls. |
| TimeConversion.FillIn | zoneinfo/src/localtime.c:1575-1607 | All fields written are those of the civil time, plus the inserted seconds; the only failure is a year below the range of `tm_year`. |
| TimeConversion.TimeSub | zoneinfo/src/localtime.c:1477-1608 | `timesub` yields, for every time, offset and leap table, the unique civil time of t + offset - correction, by the formula of the standard, with inserted seconds on top, and otherwise fails in exactly the stated cases with exactly the stated field left behind. |
| TimeConversion.CorrIs | zoneinfo/src/localtime.c:1500-1503 | The correction is that of the entry at or before the time after which there is none, or 0 without any. |
| LeapSeconds.BrokenDownIncreasing | zoneinfo/src/localtime.c:1500-1598 | With single insertions at minute ends, ascending, and an offset of whole minutes, a later time always has a later broken-down time in `tmcomp` order, inserted seconds included. |
| LeapSeconds.InsertedSecondShown | zoneinfo/src/localtime.c:1504-1514 | A seconds field of 60 or more is shown exactly for the inserted seconds, as 59 plus the place in the run. |
| LeapSeconds.RunIsCounted | zoneinfo/src/localtime.c:1506-1514 | The first second of a run of inserted seconds counts 1, each following one 1 more. |
| LeapSeconds.InsertedFromMinute | zoneinfo/src/localtime.c:1787-1803 | A time shown past :59 lies its whole seconds field after its own minute and the inserted part after :59: both ways of setting seconds aside in `time2sub` are right for inserted seconds. |
| LeapSeconds.LeapCorr | zoneinfo/src/localtime.c:2065-2080 | The correction is that of the last entry at or before the time. |
| LeapSeconds.PosixMonotone | zoneinfo/src/localtime.c:2082-2087 | With steps of plus or minus one second `time2posix` never decreases. |
| LeapSeconds.GapHasNoPreimage | zoneinfo/src/localtime.c:2096-2101 | A value that `time2posix` steps over has no preimage, there is a deletion in the table, and both neighbours are adjacent. |
| LeapSeconds.SearchUp | zoneinfo/src/localtime.c:2104-2108 | The upward search terminates at the first time whose count reaches t. |
| LeapSeconds.SearchDown | zoneinfo/src/localtime.c:2111-2115 | The downward search terminates at the last time whose count is not past t. |
| LeapSeconds.Posix2Time | zoneinfo/src/localtime.c:2089-2120 | `posix2time` terminates and inverts `time2posix` whenever t has a preimage; otherwise its result is adjacent to t. With insertions only it always inverts. |
| LocalTime.SetRepeatFlags | zoneinfo/src/localtime.c:593-608 | The folding flags are set exactly when some entry starts the type of the first, or of the last, entry one 400-year cycle away; then a table in order spans a cycle. |
| LocalTime.Lookup | zoneinfo/src/localtime.c:1344-1358 | In any table, in order or not, the loop ends where the search specified as a function ends, or gives the default type before the first entry. |
| LocalTime.FoundIsBoundary | zoneinfo/src/localtime.c:1349-1357 | In any table, in order or not, the search ends at an entry at or before the time whose successor is after it. |
| LocalTime.TypeInEffect | zoneinfo/src/localtime.c:1344-1358 | In a table in order the type used is that started by the last transition at or before the time, also among equal transitions. |
| LocalTime.FoundBeforeTail | zoneinfo/src/localtime.c:1349-1357 | Where the search ends in a table that is in order but for its last two entries: it looks at those two only from its last earlier comparison on, and then prefers them to any later entry. |
| LocalTime.InEffectUnique | zoneinfo/src/localtime.c:1344-1358 | At most one type is in effect at a time. |
| LocalTime.Fold | zoneinfo/src/localtime.c:1307-1326 | The folded time and the number of cycles are as specified by whole 400-year cycles. |
| LocalTime.CyclesCover | zoneinfo/src/localtime.c:1312-1323 | The number of cycles taken is the smallest that covers the distance, in spite of the double division. |
| LocalTime.FoldLands | zoneinfo/src/localtime.c:1327-1329 | A folded time is always inside the table: the "cannot happen" return cannot happen, and the recursive call does not fold again. |
| LocalTime.LocalSub | zoneinfo/src/localtime.c:1290-1373 | For any table, in order or not: `localsub` terminates with one recursion at most and does exactly what its specification says, failures and partial results included. |
| LocalTime.CivilRepeats | zoneinfo/src/localtime.c:1331-1341 | The civil calendar, weekdays included, repeats after whole cycles with only the year moved. |
| LocalTime.FoldingSound | zoneinfo/src/localtime.c:1305-1343 | Without leap seconds a time outside the table is shown as its own civil time under the type in effect at the folded time; it fails exactly when the folded conversion fails or the year is no `int`. |
| CInts.IncrementOverflow | zoneinfo/src/localtime.c:1650-1676 | Overflow is reported exactly when the sum is no `int`, and then nothing changes. |
| Normalization.NormalizeOverflow | zoneinfo/src/localtime.c:1678-1701 | The units end in [0, base), tens * base + units is conserved, and overflow is reported exactly when the carried tens are no `int`. |
| Normalization.YearShift | zoneinfo/src/localtime.c:1757-1768 | Moving one year at the same month and day is the length of the year chosen by y + (1 < mon). |
| Normalization.LinearUnits | zoneinfo/src/localtime.c:1737-1784 | The linear second count is that of the standard for fields in range, and every unit of a field out of range counts what it is worth. |
| Normalization.SettleYears | zoneinfo/src/localtime.c:1757-1768 | Both loops terminate and conserve the day; overflow happens only when the year of that day is out of range. |
| Normalization.SettleMonths | zoneinfo/src/localtime.c:1769-1779 | The loop terminates on a day inside its month and conserves the day; overflow happens only when the year of that day is out of range. |
| Normalization.CarryTimeOfDay | zoneinfo/src/localtime.c:1739-1747 | Carrying seconds, minutes and hours conserves the linear instant and fails exactly when some carry is no `int`. |
| Normalization.CarryDate | zoneinfo/src/localtime.c:1748-1784 | Carrying months and days ends in a calendar date of the same day number and fails exactly when a carry or the final year is out of range. |
| Normalization.Normalize | zoneinfo/src/localtime.c:1737-1784 | For arbitrary signed fields: the result is a normal form with the same linear instant, and failure happens exactly under the stated range conditions. |
| MakeTime.Search | zoneinfo/src/localtime.c:1804-1888 | The binary search over any `time_t` terminates where the search specified as a function does: what it finds shows the wanted fields with the wanted daylight saving flag, and is the time where it met the fields, or the first one that the hunt makes of it. |
| MakeTime.ClimbsMeets | zoneinfo/src/localtime.c:1821-1888 | Wherever the comparisons go from too early to too late without stepping over the fields, in any number of ups and downs, the search meets them. |
| MakeTime.SearchFinds | zoneinfo/src/localtime.c:1804-1888 | So it finds every goal to which the comparisons lead from everywhere, and something whenever it cannot miss. |
| MakeTime.HuntType | zoneinfo/src/localtime.c:1853-1888 | The hunt succeeds if and only if some pair of types of the two kinds makes a time that shows the fields with the wanted flag, and takes the first such pair from the end. |
| MakeTime.SetSecondsAside | zoneinfo/src/localtime.c:1785-1803 | Seconds out of range are set aside so that the fields searched for have seconds in range; it fails exactly on overflow. |
| CInts.WrapDetected | zoneinfo/src/localtime.c:1892-1894 | The sign comparison after the addition detects exactly the sums that leave `time_t`. |
| MakeTime.ExtremesOutside | zoneinfo/src/localtime.c:1827-1833 | A time that cannot be converted lies beyond every time that can, on the side that the search assumes. |
| MakeTime.UtcGuides | zoneinfo/src/localtime.c:1821-1855 | Without leap seconds the comparisons lead from every value of `time_t` to the wanted instant. |
| MakeTime.LeapGuides | zoneinfo/src/localtime.c:1821-1855 | With inserted seconds too, the comparisons lead from every value to any time that is shown as wanted. |
| MakeTime.AskedIsFound | zoneinfo/src/localtime.c:1785-1855 | A request for the fields shown for a time, an inserted second included, is normalised to one that leads the search to that time less the seconds set aside. |
| MakeTime.Locate | zoneinfo/src/localtime.c:1737-1890 | Normalisation and search, for any converter: what is found matches the normal form, and a request that the search cannot miss is found; for UTC the exact condition for finding it; with leap seconds every time that was asked for is found. |
| MakeTime.Time2Sub | zoneinfo/src/localtime.c:1718-1900 | Every answer is right and leaves the fields shown for it. For any converter, a request that the search cannot miss and whose matches can be shown with their seconds added is answered. For UTC without leap seconds the outcome is known exactly. With inserted seconds the fields shown for a time lead back to that time. A failure leaves the request, or the request with what a failing conversion has written. |
| MakeTime.Time2 | zoneinfo/src/localtime.c:1902-1916 | For any converter: an answer is right for the request in one of the two ways of treating seconds, or, when the first pass has failed, for what it left of the request; it leaves the fields shown for it; and a request that one of the passes must find is answered. For UTC the outcome of both passes is exact. With inserted seconds the fields shown for a time lead back to that time. |
| MakeTime.AnsweredWhenShown | zoneinfo/src/localtime.c:1902-1916 | When every time can be shown, an answer is right for the request itself. |
| TypeGuessing.SeenTypes | zoneinfo/src/localtime.c:1964-1971 | The list of types in use has each type of the transition table exactly once, as `InUse` orders them. |
| TypeGuessing.LatestFirst | zoneinfo/src/localtime.c:1964-1971 | They are ordered by their last uses: after each use of a type there is a use of every type listed before it. |
| TypeGuessing.TryGuess | zoneinfo/src/localtime.c:1980-1988 | A guess that succeeds answers the adjusted fields, and one that must be found succeeds; one that fails is undone on what the two passes left, which gives the fields back when these overwrite nothing. |
| TypeGuessing.TryGuesses | zoneinfo/src/localtime.c:1972-1992 | When nothing is overwritten in vain, the guesses answer the first pair of types in use, in their order, that is found: no pair before it must be found; and a failure means that no pair at all must be found. |
| TypeGuessing.Time1 | zoneinfo/src/localtime.c:1918-1992 | For any converter: an answer is right for the fields given with the flag clamped, or for what a guess makes of them after vain guesses, and the fields shown for it are left. A request that must be found is found. When nothing is overwritten in vain, a failure means that neither the request nor any guess must be found, changes nothing but the clamped flag and returns -1. With inserted seconds the fields shown for a time lead back to that time. For UTC there is nothing to guess. |
| TypeGuessing.AnswerIsInstant | zoneinfo/src/localtime.c:1718-1900 | For local time without leap seconds an answer is the linear second count of the fields minus the offset of the local time type shown, which has the flag asked for. |
| LocalAnswers.ClimbsExactly | zoneinfo/src/localtime.c:1821-1855 | For local time without leap seconds the search is led to the fields if and only if the clock of the zone comes to them within `time_t` and never skips them. |
| LocalAnswers.GuidesExactly | zoneinfo/src/localtime.c:1821-1855 | To a local time that exactly one time shows the comparisons lead from everywhere if and only if the clock comes to it and never skips it. |
| LocalAnswers.SkippedAtEntry | zoneinfo/src/localtime.c:1344-1358 | In an ordered table that is not folded the clock skips local times at transitions only. |
| LocalAnswers.LocalIsSure | zoneinfo/src/localtime.c:1804-1888 | Then the search cannot miss, if some time shows the fields with the flag asked for: from the wrong one of several such times the hunt leads to it. |
| LocalAnswers.LocalSolved | zoneinfo/src/localtime.c:1718-1916 | So `time2` answers every request that can be normalised, whose local time the clock comes to and never skips, and that some time shows with the flag asked for, when nothing is overwritten in vain. |
| LocalAnswers.WrongFlagFound | zoneinfo/src/localtime.c:1957-1992 | A request with the wrong flag, by the clock of one type in use while another of the other kind is shown, must be found by the guess from the one to the other. |
| LocalAnswers.RoomySolved | zoneinfo/src/localtime.c:1718-1916 | For any `time_t` and a table that is not folded the remaining conditions hold as soon as 272 years on either side of the request can be represented. |
| LocalAnswers.DjgppSolved | include/sys/djtypes.h:20 | With DJGPP's own `time_t` they always hold. |
| LocalAnswers.HastyMissed | zoneinfo/src/localtime.c:1821-1888 | A zone, in order, and a local time that exactly one time shows and that the search misses, because its clock has skipped it shortly before. |
| TimeGm.TimeOff | zoneinfo/src/localtime.c:2014-2028 | `timegm` and `timeoff` are the two passes with the flag cleared, and -1 on failure. With inserted seconds the fields shown for a time are answered with that time and left as they are. |
| TimeGm.PassSound | zoneinfo/src/localtime.c:1718-1900 | A pass that succeeds returns the linear second count of the fields, whatever their ranges, and the canonical fields of it. |
| TimeGm.ResultIsCanonical | zoneinfo/src/localtime.c:1902-1916 | On success the structure written back denotes the time returned. |
| TimeGm.Complete | zoneinfo/src/localtime.c:1718-1916 | If full normalisation does not overflow and the target can be held and shown, the call succeeds with exactly the linear second count and its canonical fields. |
| TimeGm.CompleteUtc | zoneinfo/src/localtime.c:2014-2020 | For `timegm` the target can always be shown: if no carry overflows and `time_t` can hold the linear second count, the call returns exactly that, with its canonical fields. |
| TimeGm.ShownAsks | zoneinfo/src/localtime.c:1477-1916 | So with inserted seconds `timegm` inverts `gmtsub`: the fields shown for a time, an inserted second included, are a request for that time. |
| TimeGm.RoundTrip | zoneinfo/src/localtime.c:1477-1916 | `timegm` inverts `gmtsub` on every time that can be shown. |
| TimeGm.SoundUnlessClobbered | zoneinfo/src/localtime.c:1902-1916 | A reported success is the second count of the fields if and only if it is not the case that the failing first pass has overwritten the year and the overwritten request can be represented. |
| TimeGm.SoundWhenAllShown | zoneinfo/src/localtime.c:1902-1916 | When every value of `time_t` can be shown, success always means the second count of the fields. |
| MakeTime.DjgppTimesShown | include/sys/djtypes.h:20 | Every value of the unsigned 32-bit `time_t` can be shown at every offset. |
| MakeTime.DjgppAllShown | include/sys/djtypes.h:20 | With it no conversion fails, to local time of any zone with `int` offsets and corrections, its table in order or not, or to UTC, so all that follows from every time being showable holds for DJGPP. |
| TimeGm.WideTimeClobbers | zoneinfo/src/localtime.c:1902-1916 | A concrete request on a 64-bit `time_t` for which success is reported with another time than the one asked for. |
| ZoneRules.ZellerCorrect | zoneinfo/src/localtime.c:917-928 | For every year from 1 on, the congruence gives the weekday of the first of the month that `timesub` gives. |
| ZoneRules.SelectsOne | zoneinfo/src/localtime.c:885-950 | A rule selects at most one day of a year. |
| ZoneRules.SelectsSome | zoneinfo/src/localtime.c:885-950 | Every valid rule selects a day in every year; for Mm.w.d one in the month, of the weekday d, that is the w-th such day, or the last one if there are fewer. |
| ZoneRules.JulianSkipsLeapDay | zoneinfo/src/localtime.c:887-898 | Over all n, Jn reaches every day of a year but 29 February. |
| ZoneRules.SelectsCounted | zoneinfo/src/localtime.c:887-906 | n selects the day with exactly n days of the year before it, and Jn the day with exactly n - 1 days other than 29 February before it. |
| ZoneRules.MonthDateShown | zoneinfo/src/localtime.c:909-949 | Mm.w.d selects a date if and only if it shows month m, weekday d, and a day of the month in the w-th seven days, or in earlier ones with no such weekday left in the month. |
| ZoneRules.MonthRuleDay | zoneinfo/src/localtime.c:909-949 | The loops end on the day that the Mm.w.d rule selects. |
| ZoneRules.TransTime | zoneinfo/src/localtime.c:874-951 | `transtime` is the instant of the day that the rule selects, at the rule time and offset, modulo the range of `time_t`; the sums that wrap one by one come to that. |
| ZoneRules.StartShown | zoneinfo/src/localtime.c:1069-1070 | By the clock of standard time daylight saving starts its rule time after midnight of the day that its rule selects; with a rule time within a day, on that day at that time. |
| ZoneRules.EndShown | zoneinfo/src/localtime.c:1071-1072 | And by the clock of daylight saving time it ends so. |
| ZoneRules.State.AppendPair | zoneinfo/src/localtime.c:1073-1084 | The two entries of a year are appended in time order, a tie with the end last, and earlier entries stay. |
| ZoneRules.State.FillTable | zoneinfo/src/localtime.c:1049-1091 | The rule branch fills the table with the two instants of every year from 1970 on, each with its own type, as values of `time_t`; it ends with the first year whose end `time_t` cannot hold, or when the table is full. |
| ZoneRules.EntriesSorted | zoneinfo/src/localtime.c:1064-1091 | If the instants of a year come before those of the later years and `time_t` holds all of them, the table never decreases, and increases from year to year. |
| ZoneRules.SortedExactly | zoneinfo/src/localtime.c:1064-1091 | If the instants of each year fall inside it, the table is in order if and only if `time_t` holds all of them: one that has wrapped around is before an earlier one. |
| ZoneRules.DjgppTableUnsorted | zoneinfo/src/localtime.c:1064-1091 | For rules of a northern summer and DJGPP's unsigned 32-bit `time_t` the table ends with the year 2106, whose instants have wrapped around, and is not in order. |
| ZoneRules.CompiledValid | zoneinfo/src/localtime.c:1064-1091 | A compiled table is one that `localsub` can search, whether in order or not, whatever folding flags, default type and leap seconds an earlier load has left. |
| ZoneRules.TableRefinesRules | zoneinfo/src/localtime.c:1344-1358 | From the first entry on, the type found in the table is daylight saving time exactly when the latest rule instant so far is a start, with ends winning ties, if and only if `time_t` holds all instants, or the time is before the last entry that the search compares with ahead of the last pair, or the last pair happens to have the right type. |
| ZoneRules.TailIsConstant | zoneinfo/src/localtime.c:1344-1358 | When both instants of the last year have wrapped around, from that entry on one type is shown for good: daylight saving time if it ends that year before it starts, and standard time otherwise. |
| ZoneRules.LocalTimeFollowsRules | zoneinfo/src/localtime.c:1290-1373 | So `localsub`, for a time that it does not fold, does on the compiled table what `timesub` does with the offset that the rules prescribe, with the matching flag, under that condition and no other; else it does the same with the other type. Any leap-second table. |
| ZoneRules.CivilTimeFollowsRules | zoneinfo/src/localtime.c:1290-1373 | Without leap seconds that is the civil time at the offset of the type, and the call fails exactly when that cannot be represented. |
| ZoneRules.SummerOf2105Missed | zoneinfo/src/localtime.c:1064-1091 | With DJGPP's unsigned 32-bit `time_t`, and rules of a northern summer whose instants of 2106 it cannot hold, a time from the first entry on is shown as the rules prescribe if and only if it is not in the daylight saving time of 2105, all of which is shown as standard time. |
| ZoneRules.SummerIsMissed | zoneinfo/src/localtime.c:1064-1091 | There are such rules: day 100 to day 300 by the clock of Greenwich. |
| RuleCycles.InForceRepeats | zoneinfo/src/localtime.c:1305-1326 | What the rules put in force repeats every 400 years, from the first instant of 1970 on. |
| RuleCycles.LocalTimeAlwaysFollows | zoneinfo/src/localtime.c:1290-1373 | With a table of 402 years or more, and without leap seconds, local time follows the rules of all years for every time from the first entry on, also past the end of the table when an earlier load has left the flag to fold. |
| RuleCycles.WideTable | zoneinfo/src/localtime.c:1064-1091 | A 64-bit `time_t` gives such a table, of 600 years, and holds all its instants. |
| IsoWeek.LeapSum | zoneinfo/src/tzfile.h:154-168 | The overflow-avoiding leap-year test of a sum is the test of the sum. |
| IsoWeek.ThursdayOfWeek | zoneinfo/src/strftime.c:397-402 | The Thursday by which weeks are counted has weekday 4 and is at most three days from the day. |
| IsoWeek.WeekByThursday | zoneinfo/src/strftime.c:381-422 | The week and its year are those of the first, second, and so on, seven days of the year in which that Thursday falls. |
| IsoWeek.Round | zoneinfo/src/strftime.c:390-416 | What the three outcomes of one round of the loop mean for the week of the day. |
| IsoWeek.NoReturn | zoneinfo/src/strftime.c:418-421 | After a round that goes back a year the next one does not go forward. |
| IsoWeek.Week | zoneinfo/src/strftime.c:381-422 | For consistent fields the loop runs at most twice and returns week 1 to 53 and the year of the Thursday of the day's Monday-based week. |
| DxeFormat.ExportTableWalked | src/dxe/dxe3gen.c:1310-1317 | Walking the exported symbols table recovers its names in order and ends at its end; each record leads to the next. |
| DxeFormat.UnresTableWalked | src/dxe/dxe3res.c:228-233 | The same for the unresolved symbols table, stepping over both relocation lists, as long as the counts fit 16 bits. |
| DxeFormat.DepTableWalked | src/dxe/dxe3gen.c:1416-1418 | The same for the dependency table. |
| DxeFormat.Low32Word | src/dxe/dxe3gen.c:1315 | A word is written with its lowest byte first. |
| SymbolSets.BeforeExactly | src/libc/ansi/string/strcmp.c:4-15 | `strcmp` puts a string before another if and only if it is a proper beginning of it or has the smaller byte where they first differ; it is 0 exactly on equal strings. |
| SymbolSets.BeforeTotal | src/libc/ansi/string/strcmp.c:4-15 | That is a strict total order of strings. |
| SymbolSets.BeforeTransitive | src/libc/ansi/string/strcmp.c:4-15 | And it is transitive. |
| SymbolSets.BSearch | src/libc/ansi/stdlib/bsearch.c:6-26 | In a sorted table the library search finds exactly the names that are there. |
| SymbolSets.NullRepeats | src/dxe/dxe3res.c:137-138 | The inner loop nulls exactly the repeats of the first entry of a run. |
| SymbolSets.Sift | src/dxe/dxe3res.c:131-142 | After `sift` an entry is left exactly if it is the first of its run and is not exported. |
| SymbolSets.SiftIsDifference | src/dxe/dxe3res.c:131-142 | For sorted input, what `sift` leaves is the set difference, each name once and in order. |
| DxeResolver.Parse | src/dxe/dxe3res.c:211-236 | `parse` appends exactly the names of the two tables. |
| DxeResolver.AddDeps | src/dxe/dxe3res.c:386-411 | The dependency loop appends the dependencies not yet listed, each once. |
| DxeResolver.Process | src/dxe/dxe3res.c:362-418 | `process` terminates on every finite module graph, cyclic ones included; it lists only reachable modules, collects only their symbols, leaves everything listed scanned, and fails only for a module that cannot be read. |
| DxeResolver.ListIsClosure | src/dxe/dxe3res.c:362-418 | When everything listed is scanned, the list is the command line plus exactly its transitive dependencies, and the symbol sets are exactly theirs. |
| DxeResolver.Resolve | src/dxe/dxe3res.c:429-492 | The resolver fails exactly when some module of the closure cannot be read; otherwise the symbols left are exactly those that some module of the closure needs and none exports, each once and in order. |
| DxeGenerator.CountRelocs | src/dxe/dxe3gen.c:1153-1164 | The two counts are those of the relative and the other relocations against the symbol. |
| DxeGenerator.AddressesAre | src/dxe/dxe3gen.c:1153-1164 | The relative references of a symbol are the relocations against it of type REL32, the absolute ones all others against it. |
| DxeGenerator.ListRelocs | src/dxe/dxe3gen.c:1200-1226 | The front and back cursors meet: the list is the relative addresses in order and then the absolute ones in reverse; all relocations against the symbol are marked and no other. |
| DxeGenerator.EmitUnresolved | src/dxe/dxe3gen.c:1189-1226 | The record appended is the one of the symbol, its counts and its two lists. |
| DxeFilters.HasPrefix | src/dxe/dxe3gen.c:1253-1281 | The prefix loops tell whether some prefix of the list begins the name. |
| DxeFilters.CrossOut | src/dxe/dxe3gen.c:1283-1299 | The loop over the export list finds the name if it is still there, and crosses out its first occurrence only. |
| DxeFilters.LeftCrossed | src/dxe/dxe3gen.c:1283-1299 | What crossing out leaves of the list, as a multiset, is the list less one occurrence of the name. |
| DxeGenerator.ScanExternal | src/dxe/dxe3gen.c:1230-1320 | A defined external symbol: entry points, names that are never exported, excluded and exported prefixes and the export list do to tables and list what the case on values does. |
| DxeGenerator.ScanSymbols | src/dxe/dxe3gen.c:1107-1321 | The symbol loop on tables and arrays does what the loop on values does, record by record. |
| DxePartition.MarkingMoves | src/dxe/dxe3gen.c:1209-1226 | Marking the relocations of a symbol moves exactly its absolute ones out of the module's relocation table. |
| DxePartition.RelocationsPartitioned | src/dxe/dxe3gen.c:1107-1321 | For every object: each listed symbol has exactly its own relocations of the original table, and the absolute relocations still to be written together with those listed are the original ones, each once. |
| DxePartition.LeftForModule | src/dxe/dxe3gen.c:197 | No relative relocation, and none against a listed symbol, is left for the module's table; every other is. |
| DxeGenerator.ValidAre | src/dxe/dxe3gen.c:197 | What goes to the module's table are the relocations that are not of type REL32 and have not been marked. |
| DxePartition.CountValid | src/dxe/dxe3gen.c:1352-1357 | The relocation count in the header is the number of relocations written. |
| DxeSymbols.ScanOutcome | src/dxe/dxe3gen.c:1107-1348 | The loop stops early exactly when unresolved symbols are allowed and one has more than 65535 relocations of a kind; it reports errors exactly when they are not allowed and there is one; the exports are, in order, the candidates that the export list still has when they come up; what is left of the list is known; and a symbol is listed as unresolved exactly when it is undefined and referenced. |
| DxeSymbols.AllCandidates | src/dxe/dxe3gen.c:1283-1299 | Without an export list every defined external symbol that passes the filters is exported. |
| DxeSymbols.ExportedAre | src/dxe/dxe3gen.c:1230-1320 | Every export has the name and the value of a defined external symbol that passes the filters. |
| DxeSymbols.ExportsCounted | src/dxe/dxe3gen.c:1283-1299 | With one, a name is exported as often as it is both on the list and among the candidates, whichever is less, and the other occurrences are left. |
| DxeSymbols.MissingExactly | src/dxe/dxe3gen.c:1324-1341 | Counting the exports tells exactly whether some name of the list is missing. |
| DxeModuleFile.CountErrors | src/dxe/dxe3gen.c:1324-1348 | The check after the loop finds an error exactly when the loop reported one, or missing names are not allowed and there is one. |
| DxeSymbols.EntryPoints | src/dxe/dxe3gen.c:1107-1241 | The BSS start is the lowest value of a `.bss` symbol, at most the section size; `_init` and `_fini` are the values of the last defined external symbols of those names, or -1. |
| DxeModuleFile.OffsetsAreRight | src/dxe/dxe3gen.c:1388-1436 | Every offset in the header is the position at which what it names was written, the section is aligned to 16, and the file ends after the description. |
| DxeModuleFile.HeaderStart | include/sys/dxe.h:100-134 | Read at their positions in the file: the magic number, the element size of -1, the header size, the version, and the two sizes of the section, |
| DxeModuleFile.HeaderPlaces | include/sys/dxe.h:100-134 | the section, the number and the place of the relocations, and the two entry points, |
| DxeModuleFile.HeaderTables | include/sys/dxe.h:100-134 | and the number, the place and the size of each table. |
| DxeModuleFile.TablesReadBack | src/dxe/dxe3res.c:329-341 | From such a file the resolver reads exactly the three tables and the counts. |
| DxeModuleFile.TablesParsed | src/dxe/dxe3res.c:211-236 | Over the three tables the walks recover all names and end exactly at exp_size, exp_size + unres_size and the end. |
| DxeModuleFile.WriteFile | src/dxe/dxe3gen.c:1350-1436 | What is written in turn is the file that the header describes. |
| DxeModuleFile.WriteDxe | src/dxe/dxe3gen.c:1025-1445 | The whole of it: relocations partitioned, exact conditions for both failures, exact symbol lists under every combination of filters, entry points and section size, correct offsets, and a file from which the resolver reads back the exported, unresolved and dependency names. |
| DxeLoader.ExportsBack | src/libc/dxe/dlopen.c:345-349 | Reading the exported symbols table gives back every record, offset and name. |
| DxeLoader.NeedsBack | src/libc/dxe/dlopen.c:302-325 | Reading the unresolved symbols table gives back every record: the name, the relative and the absolute addresses. |
| DxeLoader.WrittenIsLoaded | src/libc/dxe/dlopen.c:190-354 | `dlopen` finds in a file of `write_dxe` all that went into it: every exported symbol with its offset, the section with its zeroed end, the dependencies, every unresolved symbol with its two lists, the relocations, and the entry points. |
| Bitmap.SetMap | src/mwdpmi/memory.c:8 | Sets the bit given and no other. |
| Bitmap.ResetMap | src/mwdpmi/memory.c:7 | Clears the bit given and no other. |
| Bitmap.TestMap | src/mwdpmi/memory.c:9 | Tells whether the bit is set. |
| Bitmap.IsDigit | src/mwdpmi/memory.c:9 | The bit of a number is the binary digit of its byte whose weight is 2 to the number modulo 8. |
| HeapShape.ExactlyOneBlock | src/mwdpmi/memory.c:197-286 | In a tiling every byte from the start to `core_end` belongs to exactly one block, and no other byte to any. |
| HeapShape.TotalIsLength | src/mwdpmi/memory.c:197-286 | The block sizes of a tiling add up to its length. |
| HeapShape.SplitTiles | src/mwdpmi/memory.c:274-284 | Cutting a block in two keeps the tiling. |
| HeapShape.GrowTiles | src/mwdpmi/memory.c:254-264 | Adding a block at the end keeps the tiling. |
| HeapShape.BestFitIsBest | src/mwdpmi/memory.c:248-252 | The block chosen is large enough, none that is large enough is smaller, and among equal ones it is the first; none is chosen exactly when none is large enough. |
| HeapShape.ExactFitStays | src/mwdpmi/memory.c:249 | Stopping the scan at an exact fit does not change the choice. |
| ServerMemory.Memory.constructor | src/mwdpmi/memory.c:63-97 | The initial state: the server's pages and the one of the bitmap are mapped, every later page is free, there is no block, and all invariants hold. |
| ServerMemory.Memory.FindFree | src/mwdpmi/memory.c:149-160 | The circular search terminates; it fails exactly when no page is free, and otherwise finds the first free page from the search position on. |
| ServerMemory.Memory.Palloc | src/mwdpmi/memory.c:117-165 | Returns a page in range that was free, marks it alone, keeps the count equal to the clear bits; fails exactly when there is none, changing nothing. |
| ServerMemory.Memory.Pfree | src/mwdpmi/memory.c:169-192 | Clears the bit and raises the count. |
| ServerMemory.EntryBits | src/mwdpmi/memory.c:216 | A mapped page has an entry with the flags present, writable and user, no other flag, and its number above. |
| ServerMemory.Memory.FreedIsFree | src/mwdpmi/memory.c:169-192 | Freeing a page in use keeps the count equal to the clear bits. |
| ServerMemory.Memory.Rollback | src/mwdpmi/memory.c:208-213 | Releasing a partial allocation gives back the core and the count; through the page table, which has 1024 entries, it frees the last 1024 pages only. |
| ServerMemory.KeptExactly | src/mwdpmi/memory.c:197-224 | Mapping free pages behind the core keeps the entries of the core if and only if entries in use and new pages together are at most 1024. |
| ServerMemory.Memory.Morecore | src/mwdpmi/memory.c:197-224 | Succeeds exactly when enough pages are free, and then has mapped that many distinct pages behind the old end. The entries of the core are kept if and only if they and the pages taken are at most 1024; then no other entry than those of the new pages changes, and after a failure bitmap, count and core are as before. The bitmap alone is restored if and only if at most 1024 pages had been free. |
| ServerMemory.LosingCall | src/mwdpmi/memory.c:197-224 | With 1025 pages free a failing call loses one of them for good and overwrites entries of the core. |
| ServerMemory.OverwritingCall | src/mwdpmi/memory.c:197-224 | With 1024 pages free it gives all of them back, and still overwrites entries of the core. |
| ServerMemory.Memory.PhysicalApart | src/mwdpmi/memory.c:302-311 | While the core is mapped, `ptr_to_physical` gives different bytes of memory for different addresses of the core, none of them in a free page. |
| ServerMemory.Memory.FindBest | src/mwdpmi/memory.c:248-252 | The scan of the list finds the best fit and the block before it. |
| ServerMemory.Memory.Extend | src/mwdpmi/memory.c:254-264 | New memory becomes the first free block; failure happens exactly for lack of pages. The entries of the core are kept under the exact condition of `morecore`, and then a failure leaves heap and pages as they were. |
| ServerMemory.Memory.Cut | src/mwdpmi/memory.c:274-284 | The link to the block is moved up to the rest: the list keeps its order, and the two parts have the size of the whole. |
| ServerMemory.Memory.Malloc | src/mwdpmi/memory.c:241-286 | Hands out the first of the smallest adequate free blocks or new memory, with the size rounded as coded; fails exactly when neither is to be had. If and only if the page table has entries for the pages that the call takes, the core stays mapped; then tiling and list are kept, no other live block changes, and a failure leaves heap and pages as they were. |
| ServerMemory.Memory.Free | src/mwdpmi/memory.c:228-237 | Keeps the tiling and the list; the block becomes the first free one; null is ignored. |
| ServerMemory.Memory.PayloadInside | src/mwdpmi/memory.c:247-285 | The n bytes handed out are 16-aligned and lie in their block. |
| ServerMemory.Memory.PayloadDisjoint | src/mwdpmi/memory.c:247-285 | They lie in no other block, live or free. |
| ServerMemory.Memory.Conservation | src/mwdpmi/memory.c:197-286 | Free and live bytes together are the space obtained from `morecore`. |
| RunSearch.SlotBlocks | src/mwdpmi/memory.c:336-340 | A slot in use in a run rules out every run that starts up to it, which justifies the skip. |
| RunSearch.BlockCountRoundsUp | src/mwdpmi/memory.c:321 | The block count is the size divided by 4 MB, rounded up. |
| RunSearch.LinearSpace.LinearAlloc | src/mwdpmi/memory.c:315-343 | Returns the lowest run of free blocks from block 2 on that is large enough and marks exactly that run; returns 0 exactly when there is none, changing nothing. |
| RunSearch.LinearSpace.LinearFree | src/mwdpmi/memory.c:345-358 | Releases exactly the blocks of the run. |
| RunSearch.LinearSpace.AllocateAndFree | src/mwdpmi/memory.c:315-358 | Freeing what was allocated with the same size restores the set of blocks in use. |
| RunSearch.Client.LdtAllocate | src/mwdpmi/ldt.c:12-45 | Returns the lowest run of free descriptors above the 16 reserved ones, sets up exactly that run, and returns -1 exactly when there is none. |
| RunSearch.FreshBits | src/mwdpmi/ldt.c:27-36 | A descriptor set up is, bit by bit, present, for ring 3, a data segment, growing upwards, writable and byte granular, with base and limit 0. |
| MkdocTree.InsertPosition | src/mkdoc/mkdoc.cc:663-682 | The descent ends where the new node belongs in the in-order sequence, and the last nodes left to the right and to the left are its neighbours there. |
| MkdocTree.Folded | src/mkdoc/mkdoc.cc:20-39 | The folded name is the name without its leading underscores, none of which is left, with its letters in lower case. |
| MkdocTree.UnderscoreIgnored | src/mkdoc/mkdoc.cc:32-39 | A leading underscore makes no difference. |
| MkdocTree.PositionIsFirst | src/mkdoc/mkdoc.cc:666-675 | In a sorted sequence that is before the first node not less than it, and the sequence stays sorted. |
| MkdocTree.HungSpells | src/mkdoc/mkdoc.cc:681 | Storing the node through the last link turns the tree into the one with the node inserted. |
| MkdocTree.Tree.Chain | src/mkdoc/mkdoc.cc:677-680 | The prev/next chain becomes the new in-order sequence. |
| MkdocTree.Tree.Add | src/mkdoc/mkdoc.cc:659-682 | Tree, sorted order and chain are kept; the new node lands before the first node not less than it in folded name and all others keep their order. |
| MkdocTree.SideOfName | src/mkdoc/mkdoc.cc:692-701 | In a sorted tree a name can only be on the side to which the comparison points. |
| MkdocTree.Tree.Search | src/mkdoc/mkdoc.cc:688-702 | The descent finds a node of the name exactly when the tree has one. |
| MkdocTree.Tree.Find | src/mkdoc/mkdoc.cc:684-707 | Returns an existing node of the folded name with nothing changed, or else adds a new one; a tree without duplicate names stays without. |
| MkdocTree.Traverse | src/mkdoc/mkdoc.cc:627-636 | The recursive traversal visits the nodes in the in-order sequence of the tree. |
| MkdocTree.Tree.TraverseAll | src/mkdoc/mkdoc.cc:130 | So the traversal of the whole tree visits every node once, sorted by folded name, in the order of the prev/next chain. |

## Left out

Calendar and time zones:

- `TimeConversion.TimeSub`: the intermediate products and differences of `int` near the ends of its range are taken as mathematical, also in the weekday formula for the 70 years of `TimeConversion.WeekdayFitsExactly`; a leap table whose first entry does not insert a second makes the code read before the table when its instant is converted, and such tables are excluded (`Readable`).
- `LocalTime.LocalSub`: the sums and differences of the folding are taken as mathematical, which is what a signed 64-bit `time_t` gives for the times it can hold with a table that spans a cycle.
- `ZoneRules.State.FillTable`: the rules are given parsed.
- `ZoneRules.LocalTimeFollowsRules`: for times from the first entry on. The instants of a year have to come before those of the later years, which those of two rules at New Year need not; where `time_t` does not hold all of them, they also have to fall inside their own year of UTC.
- `TypeGuessing.Time1`: which guess is answered is stated for requests whose vain passes overwrite nothing, as under DJGPP's own `time_t` (`LocalAnswers.DjgppSolved`) and away from the ends of `tm_year` (`LocalAnswers.RoomyIsClean`). `tm_sec` wraps in the adjustment.
- `MakeTime.Time2Sub`: that the search cannot miss is proved for UTC, with and without inserted seconds, and for local time without leap seconds; for local time with them only what `MakeTime.SearchFinds` says of any converter.
- `TimeGm.Complete`: for UTC without leap seconds; with them, `TimeGm.ShownAsks` covers requests that some time is shown as.
- A floating-point `time_t`.
- Reading zone files, the `TZ` string grammar, the environment, `tzname`, the choice of the default type, and the branch of `tzparse` that borrows the transitions of `posixrules`.
- `mktime` and `localtime` under DJGPP, which this file leaves to another one; that file is not part of this model.
- Formatting in `strftime` other than the computation of the week and its year.

DXE:

- `DxeModuleFile.WriteDxe`: legacy DXE1 output, reading the object file, growing buffers and the text of reports are not modelled; reading back is stated for files below 2 GB, whose offsets fit the signed header fields.
- `DxeResolver.Resolve`: module files are a fixed map from names to well-formed tables; running out of memory, the search along `LD_LIBRARY_PATH`, the `-o` option and the text that `dump` writes are not modelled, nor is the table of loaded modules, which only serves to free them.
- `SymbolSets.QSort`: stands for the library's `qsort` by its contract only.
- `DxeLoader.WrittenIsLoaded`: what `dlopen` does with the parts that it has read: opening dependencies, resolving symbols, patching addresses and calling the entry points.
- `show_symbols`, which walks the same tables as `parse` does, only to print them.

DPMI server:

- `ServerMemory.Memory.Palloc`: the branch for pages from a VCPI server, the interrupt calls and the translation look-aside buffer.
- `ServerMemory.Memory.Malloc`: a call starts with the core mapped by the page table, and what the server does after entries in use have been overwritten, when bitmap and headers are reached through them, is not followed; requests are not negative and below 2 GB less two pages, so that the sums of the code do not overflow; the blocks are addresses in a map from addresses to headers rather than bytes.
- `ServerMemory.Memory.constructor`: the block that holds the linear map is allocated later by an ordinary call.
- `ServerMemory.Memory.Pfree`: that the page was in use is the caller's business; `ServerMemory.Memory.FreedIsFree` says what it then means.
- `RunSearch.LinearSpace.LinearAlloc`: requests of size 0 or so large that rounding up wraps, for which the loop of the code does not end.
- `RunSearch.Client.LdtAllocate`: a count of 0, which its callers reject.
- `physical_poke`, which borrows an entry of the page table for one write and clears it.
- Allocation on behalf of clients, whose accounting does not balance as written.

Documentation tree:

- `MkdocTree.Tree.Add`: what a node carries besides its name, and destruction of the tree.
