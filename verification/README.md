# Herak firmware: a verified model

The Herak firmware runs on a Raspberry Pi Pico and ties sensors, battery monitors, boilers and solar
inverters to a home network. This project models the parts of it that compute or keep a protocol, and
proves what they promise. Each module follows one source file, or one part of it. Code that changes state
step by step is modelled by methods and classes, proved against specification functions; what the firmware
relies on is then proved about those functions, over every input or every run.

| files | part of the firmware |
|---|---|
| `Gregorian`, `CalendarOps` | `timegm` and `gmtime_r`, after section 4.16 of the POSIX.1-2017 Base Definitions, the 400-year cycle, and the field changes normalised by them |
| `CronExpr`, `CronSearch`, `CronMoves` | the search for the next instant that a cron expression matches, on instants |
| `CronSound`, `CronExact`, `CronOneStar`, `CronEveryMonth` | exactly when its results match, when they are the least matches, and what that means for expressions with one star or with every month |
| `CronCycle` | the repetition of its answers every 400 years |
| `CronNext` | the same search as the source makes it, on the fields of a calendar |
| `CronParser`, `CronGrammar` | the cron expression parser, and the texts it reads |
| `Scripts`, `ScriptRuns`, `CronTexts` | the script scheduler on top of it, its runs, and the way from the text of a schedule to them |
| `Ota` | the firmware update over TFTP |
| `VoltronicCrc`, `VoltronicLink`, `VoltronicCommands` | checksum, reply framing over HID reports and command scheduler of the solar inverter link |
| `Manchester`, `OpenTherm`, `OpenThermSearch` | the OpenTherm line code and frames, after section 4.2 of the OpenTherm Protocol Specification v2.2, and the search for the receive frequency |
| `Base64`, `ConfigStore` | base64, after section 4 of RFC 4648, and the configuration store that keeps values in it |
| `JkBms` | reassembly of battery monitor notifications |
| `MqttRate` | the rate limiter of MQTT publishing |
| `Samples` | the trimmed mean of sensor samples |
| `Bytes`, `Sequences`, `Wrappers` | bytes, prefixes and concatenations, optional values |

How the main results fit together:

- **Cron.** `CronSearch.Search` describes `do_next` on instants for every expression that parses: the second is
  settled, then minute, hour, day and month keep their field or move it and search again from there.
  `CronNext.Calendar.DoNext` changes calendar fields one by one as the source does and is proved to compute
  `Search`, including its recursion, whose measure is the number of months left before it gives up and then the
  distance to the next matching minute; that there is one rests on every day number meeting every weekday.
  `cron_next` is not right for every expression, and two equivalences say for which it is.
  - Soundness (`CronSound.SoundIff`): every result is later and matches, if and only if the capped day scan never
    ends unnoticed off a match. The source takes an equal day number for "not moved"; the condition asks that
    where this is wrong and the month is listed, the scan still ends on a matching day and midnight is listed. It
    holds with one star, and whenever no four weeks are without a matching day.
  - Exactness (`CronExact.ExactIff`): every date gets the least later match, if and only if the scan is honest in
    that sense, no change of month overflows past a month that has a matching day, the seconds have no inner gap
    unless every other field is `*`, and from every day the search settles on a day before it gives up. All of it
    is about the six sets and the days of one 400-year cycle (`Gregorian.DayRepeats`).
  - With the day of month or the day of week `*` this comes down to the listed numbers alone
    (`CronOneStar.OneStarExactIff`): some listed day exists in a common year, no number of an unlisted month
    displaces a listed one of the next listed month, and the rule on the seconds. Everyday expressions satisfy it
    (`CronOneStar.PlainScheduleIsExact`), and so does what everyday texts mean (`CronTexts.PlainTextIsExact`).
  - With every month listed it comes down to the scan and the seconds (`CronEveryMonth.EveryMonthExactIff`), also when
    both day fields restrict (`CronEveryMonth.WorkdaysExample`).
- **Scheduler.** From a loaded script, over all runs of checks, two equivalences again. A script never runs without a
  firing instant since the check before if and only if the scan is honest (`ScriptRuns.RunsSoundIff`). It runs exactly
  when there is one if and only if `cron_next` is exact, or the scan is honest and no day of the cycle matches
  (`ScriptRuns.RunsExactIff`): an expression that never matches is scheduled rightly although no date has an answer.
- **Parsing.** A field text has a meaning as a set of numbers; the loops of the parser are proved to compute
  that set, and parsing succeeds exactly when all six fields have one. The first pass of `split_str` counts
  exactly what the second stores. `CronGrammar` writes schedules out: a text of ranges, steps and lists parses exactly
  when its numbers are in order, and then matches the instants whose second, minute, hour, day, month and weekday the
  six fields hold, in this order (`CronGrammar.ScheduleRead`); "0 15 9 * * *" is a quarter past nine.
- **Wire formats.** Round trips, in both directions where the format allows it, and what is rejected: the
  Voltronic reply verifies exactly when it begins with a frame, and a message followed by its remainder is divisible
  by the polynomial; Manchester with parity has distance four; base64 decodes whole-group prefixes; the battery frame
  is received exactly when no later piece starts with the magic, and of many frames in a row just those are handed over.
- **Runs.** The update never boots a slot unless the firmware check accepts it and what was received has the digest of
  the last start that took effect, whatever writes fail; what was received and what is in the slot can only differ when
  a packet comes after a close. An image that arrives without failures, cut in any way, is booted if and only if its
  digest and the firmware check accept it (`Ota.Update.Deliver`). The frequency search ends whatever the device answers, and finds a device with a window
  of frequencies exactly when the window starts low enough; the limiter keeps its rate exactly when the failed sends of
  a window and its limit together stay within 32 bits, and holds a message back exactly when the window is full and less
  than a minute old (`MqttRate.HeldBackIff`). An inverter command that has its turn is issued in any twelve
  selections in a row until a reply answers it, and then not again until the device is attached or detached.

Properties that turned out false of the code are stated as exact conditions, with inputs that show it:

- results that do not match: 9:00 on the first Monday of a month, from 5 January 2024
  (`CronSound.FirstMondayFiresTwice`, `Scripts.MidnightRun`), and midnight of Monday the 31st, from 1 January 2024
  (`CronSound.CapIsUnnoticed`); the condition is `CronSound.SoundIff`, and for runs `ScriptRuns.RunsSoundIff`.
- matches that are missed: 29 February, in 2096 (`CronOneStar.LeapDayExample`); 1 and 31 February, from 31 January
  (`CronOneStar.OverflowExample`); seconds 0 and 30, from second 15 (`CronOneStar.GapExample`); the condition is
  `CronExact.ExactIff`, and for runs `ScriptRuns.RunsExactIff`.
- a broken rate limit: `M` packets, `2^32 - M` failed sends after a minute, and one packet more
  (`MqttRate.WrapBreaksLimit`); the condition is `MqttRate.LimitIff`.
- lost samples: 65536 before 0 (`Samples.WideSampleIsLost`), as swaps go through 16 bits; the condition is in
  `Samples.SortSamples`.
- a parameter that is set with success and reads as nothing: the 101st (`ConfigStore.TableIsFull`); the condition is
  in `ConfigStore.GetAfterRun`.
- a device that is not found: one whose window of frequencies starts above 990001 Hz (`OpenThermSearch.WindowIsFound`).

C `char` is unsigned, as on the firmware's ARM target. Clocks, flash, files, the bootloader, the USB, TFTP
and MQTT stacks and the devices are parameters, arbitrary unless stated.

## Model

| member | source | states |
|---|---|---|
| Gregorian.MonthLength | libs/common/services/scripts/ccronexpr.c:99-139 | the months that the POSIX day formula yields have the familiar lengths, February alone changing in leap years |
| Gregorian.MonthOfUnique | libs/common/services/scripts/ccronexpr.c:99-139 | a day lies in one month only, which normalisation finds |
| Gregorian.TimegmOfGmtime | libs/common/services/scripts/ccronexpr.c:99-139 | breaking an instant down and composing it again changes nothing |
| Gregorian.GmtimeOfTimegm | libs/common/services/scripts/ccronexpr.c:99-139 | fields in range survive normalisation, and the weekday is recomputed |
| Gregorian.DayRepeats | libs/common/services/scripts/ccronexpr.c:99-139 | day number, weekday and month repeat after 146097 days |
| Gregorian.NextDate | libs/common/services/scripts/ccronexpr.c:468-490 | on or after every day there is a day with any given number and weekday |
| CalendarOps.SetNonNegative | libs/common/services/scripts/ccronexpr.c:336-428 | no field but the year can be set so that an instant from the epoch on falls before it; so -1 never stands for an error |
| CalendarOps.AddNonNegative | libs/common/services/scripts/ccronexpr.c:297-331 | the same for a carry |
| CalendarOps.ResetKept | libs/common/services/scripts/ccronexpr.c:374-390 | resetting the listed lower fields one after another, normalising each time, goes to the start of the hour, day or month, also when fields that are zero already are not on the list |
| CalendarOps.MovedSecond | libs/common/services/scripts/ccronexpr.c:434-461 | moving the second, with its carry, goes to the first instant at or after whose second is listed |
| CalendarOps.MovedMinute | libs/common/services/scripts/ccronexpr.c:434-461 | moving the minute goes to the next listed minute, over the carry into the hour |
| CalendarOps.MovedHour | libs/common/services/scripts/ccronexpr.c:434-461 | moving the hour goes to the next listed hour, over the carry into the day |
| CalendarOps.MovedMonth | libs/common/services/scripts/ccronexpr.c:434-461 | changing the month before the day is reset lands in the next listed month, or overflows into the one after it |
| CronExpr.NextBit | libs/common/services/scripts/ccronexpr.c:262-276 | the first one bit from a position on, with none before it |
| CronExpr.NextIndex | libs/common/services/scripts/ccronexpr.c:434-461 | search and roll-over together give the least later index whose residue is listed |
| CronExpr.DayHit | libs/common/services/scripts/ccronexpr.c:468-490 | every expression that parses has a matching day ahead of every day |
| CronExpr.DayNumberChanges | libs/common/services/scripts/ccronexpr.c:546-557 | within four weeks the day number tells whether a scan moved |
| CronExpr.OneStarIsNear | libs/common/services/scripts/ccronexpr.c:468-490 | with the day of month or the day of week `*`, a matching day comes within 61 days, well under the cap of 366 |
| CronExpr.OneStarScan | libs/common/services/scripts/ccronexpr.c:546-557 | with one star the capped scan ends on the first matching day, and its number equals the old one exactly when it did not move |
| CronSearch.Search | libs/common/services/scripts/ccronexpr.c:492-573 | `do_next` for every expression that parses: what it returns is not earlier than its start, lies in a listed month, is a match or a midnight, and is a match when the scan is honest |
| CronMoves.StepSkipsNothing | libs/common/services/scripts/ccronexpr.c:522-557 | a move of minute, hour or day goes forward and passes over no match of these fields |
| CronMoves.JumpAhead | libs/common/services/scripts/ccronexpr.c:559-570 | a change of month goes forward, to the next listed month or past it exactly when the day number does not exist there |
| CronMoves.StepDecreases | libs/common/services/scripts/ccronexpr.c:526-557 | every such move is strictly later and shrinks the distance to the next match |
| CronMoves.JumpDecreases | libs/common/services/scripts/ccronexpr.c:563-570 | every change of month is strictly later and uses up months before the search gives up |
| CronMoves.SearchSteps | libs/common/services/scripts/ccronexpr.c:526-557 | when the scan is honest, a search that moves minute, hour or day is the search from where the move lands |
| CronMoves.SearchJumps | libs/common/services/scripts/ccronexpr.c:559-570 | a search that changes the month is the search from there, or gives up four years on |
| CronSound.CronNextIsLater | libs/common/services/scripts/ccronexpr.c:1047-1101 | every result of `cron_next` is strictly later than the date, for every expression that parses |
| CronSound.CronNextIsSound | libs/common/services/scripts/ccronexpr.c:1047-1101 | when the scan is honest, every result of `cron_next` matches all six fields |
| CronSound.DishonestIsUnsound | libs/common/services/scripts/ccronexpr.c:546-557 | a day whose scan ends unnoticed off a match makes `cron_next` return midnight of that day, which does not match, for some date |
| CronSound.SoundIff | libs/common/services/scripts/ccronexpr.c:1047-1101 | for every expression that parses, all results match if and only if the scan is honest on every day of a 400-year cycle |
| CronSound.OneStarIsHonest | libs/common/services/scripts/ccronexpr.c:546-557 | with one star the scan is honest |
| CronSound.DenseIsHonest | libs/common/services/scripts/ccronexpr.c:546-557 | so it is when no four weeks are without a matching day, whatever the day fields restrict |
| CronSound.DenseExample | libs/common/services/scripts/ccronexpr.c:546-557 | days 1-30 with Sunday to Friday restrict both day fields, and the scan is honest |
| CronSound.FirstMondayFiresTwice | libs/common/services/scripts/ccronexpr.c:546-557 | 9:00 on the first Monday of a month: from 5 January 2024, 9:00, the answer is 5 February, 0:00, no match; from there it is 9:00 of the same day |
| CronSound.CapIsUnnoticed | libs/common/services/scripts/ccronexpr.c:468-490 | midnight of Monday the 31st in January: from 1 January 2024 the scan meets its cap on 1 January 2025, which is returned and does not match |
| CronExact.SearchSkipsNothing | libs/common/services/scripts/ccronexpr.c:492-573 | when the scan is honest and no overflow harms, no search passes over a matching minute |
| CronExact.SearchSecond | libs/common/services/scripts/ccronexpr.c:515-520 | with seconds that have no inner gap, a search that leaves its minute ends on the least listed second |
| CronExact.FoundIsLeast | libs/common/services/scripts/ccronexpr.c:492-573 | when the scan is honest, no overflow harms and the seconds are exact, whatever a search finds is the least match from its start on |
| CronExact.SearchSettles | libs/common/services/scripts/ccronexpr.c:559-570 | a search finds something if and only if it settles from the day on which it first looks |
| CronExact.OverflowMisses | libs/common/services/scripts/ccronexpr.c:453-457 | an overflowing change of month that leaves out a month with a matching day makes the answer wrong for some date |
| CronExact.GapMisses | libs/common/services/scripts/ccronexpr.c:515-520 | a second that was just advanced is not reset, so an earlier listed second of the next matching minute is missed |
| CronExact.NotReachingIsInexact | libs/common/services/scripts/ccronexpr.c:559-570 | a day of the cycle from which the search does not settle makes the answer wrong for some date |
| CronExact.ExactIff | libs/common/services/scripts/ccronexpr.c:1047-1101 | for every expression that parses, `cron_next` finds the least later match for every date from the epoch on, if and only if scan, overflow, seconds and reach meet the condition on one cycle of days |
| CronOneStar.SettlesFinds | libs/common/services/scripts/ccronexpr.c:559-570 | without harmful overflow a matching day within four years keeps the search from giving up |
| CronOneStar.LeapDayIsMissed | libs/common/services/scripts/ccronexpr.c:563-565 | with one star and no listed day in a common year, the search does not settle from 1 March 2096, as 2100 is no leap year |
| CronOneStar.OverflowIff | libs/common/services/scripts/ccronexpr.c:453-457 | with one star, no overflow harms if and only if no number of an unlisted month displaces a listed one of the next listed month; with every number listed, if no unlisted month is longer than the next listed one |
| CronOneStar.OneStarExactIff | libs/common/services/scripts/ccronexpr.c:1047-1101 | with one star, `cron_next` is exact if and only if the listed numbers meet three rules |
| CronOneStar.PlainScheduleIsExact | libs/common/services/scripts/ccronexpr.c:1047-1101 | it is for seconds `*` or single, one of the day fields `*`, and all months or days up to 28 |
| CronOneStar.LeapDayExample | libs/common/services/scripts/ccronexpr.c:563-565 | midnight of 29 February: from 1 March 2096 the answer is that there is none |
| CronOneStar.OverflowExample | libs/common/services/scripts/ccronexpr.c:453-457 | midnight of 1 and 31 February: from 31 January 2023 the answer is not before March, although 1 February matches |
| CronOneStar.GapExample | libs/common/services/scripts/ccronexpr.c:515-520 | seconds 0 and 30 of every hour: from 0:59:15 the answer is not before 1:00:30, although 1:00:00 matches |
| CronEveryMonth.EveryMonthExactIff | libs/common/services/scripts/ccronexpr.c:1047-1101 | with every month listed, `cron_next` is exact if and only if the scan is honest and the seconds have no inner gap or every other field is `*` |
| CronEveryMonth.DenseIsExact | libs/common/services/scripts/ccronexpr.c:1047-1101 | days 1-30 with Sunday to Friday, every month and a single second: both day fields restrict, and it is exact |
| CronEveryMonth.WorkdaysExample | libs/common/services/scripts/ccronexpr.c:1047-1101 | 9:00 on such a day is an expression without a star, and exact |
| CronCycle.CronNextRepeats | libs/common/services/scripts/ccronexpr.c:1047-1101 | when the scan is honest, the answer for a date 400 years later is the answer 400 years later |
| CronCycle.HasMatchIff | libs/common/services/scripts/ccronexpr.c:1047-1101 | an expression matches some instant if and only if some day of the cycle matches |
| CronNext.Calendar.Mktime | libs/common/services/scripts/ccronexpr.c:99-139 | the instant of the fields, which are normalised |
| CronNext.Calendar.AddToField | libs/common/services/scripts/ccronexpr.c:297-331 | writes one field and normalises; an error exactly when the instant is -1 |
| CronNext.Calendar.SetField | libs/common/services/scripts/ccronexpr.c:392-428 | the same for an assigned value |
| CronNext.Calendar.ResetMin | libs/common/services/scripts/ccronexpr.c:336-372 | the same for the least value of a field |
| CronNext.Calendar.ResetAllMin | libs/common/services/scripts/ccronexpr.c:374-390 | resets the fields in order, without error from the epoch on |
| CronNext.NextSetBit | libs/common/services/scripts/ccronexpr.c:262-276 | the loop finds the first one bit, or reports that there is none |
| CronNext.Calendar.FindNext | libs/common/services/scripts/ccronexpr.c:434-466 | a listed value changes nothing; otherwise carry, assignment and resets move the instant as specified |
| CronNext.Calendar.FindNextDay | libs/common/services/scripts/ccronexpr.c:468-490 | the day scan stops where the capped scan on days does, with the lower fields reset |
| CronNext.Calendar.SettleMinute | libs/common/services/scripts/ccronexpr.c:522-532 | the minute part of a round and its recursive call keep the search's answer |
| CronNext.Calendar.SettleHour | libs/common/services/scripts/ccronexpr.c:534-544 | the hour part does |
| CronNext.Calendar.SettleDay | libs/common/services/scripts/ccronexpr.c:546-557 | the day part does |
| CronNext.Calendar.SettleMonth | libs/common/services/scripts/ccronexpr.c:559-572 | the month part ends with the search's answer or gives up with it |
| CronNext.Calendar.DoNext | libs/common/services/scripts/ccronexpr.c:492-573 | the recursive mutation of the calendar ends and computes the search |
| CronNext.CronNext | libs/common/services/scripts/ccronexpr.c:1047-1101 | the result is that of the search; it is later, matches when the scan is honest, and is the least such instant and never -1 under the exact condition |
| CronParser.SplitStr | libs/common/services/scripts/ccronexpr.c:667-751 | the non-empty pieces between delimiters without white space; none for 256 characters or more |
| CronParser.CountPieces | libs/common/services/scripts/ccronexpr.c:687-701 | the first pass counts the pieces |
| CronParser.StorePieces | libs/common/services/scripts/ccronexpr.c:715-737 | the second pass fills an array of that many pieces exactly |
| CronParser.PiecesByScan | libs/common/services/scripts/ccronexpr.c:687-737 | collecting character by character yields the stretches between delimiters |
| CronParser.GetRange | libs/common/services/scripts/ccronexpr.c:794-861 | the bounds that `*`, n or a-b denote within the limits, or an error |
| CronParser.SetEvery | libs/common/services/scripts/ccronexpr.c:928-929 | the incrementing loop sets every k-th bit of the range and no other |
| CronParser.SetItemHits | libs/common/services/scripts/ccronexpr.c:877-934 | one item adds the numbers it denotes; `X/k` is open upwards unless X is a range |
| CronParser.SetNumberHits | libs/common/services/scripts/ccronexpr.c:863-941 | a field adds what it denotes, or fails exactly when it denotes nothing |
| CronParser.FieldIsUnion | libs/common/services/scripts/ccronexpr.c:876-935 | a number is in a field exactly when it is in one of its comma-separated items |
| CronParser.RotateMonths | libs/common/services/scripts/ccronexpr.c:958-964 | the in-place loop shifts the months 1-12 to 0-11 and leaves none behind |
| CronParser.SetMonths | libs/common/services/scripts/ccronexpr.c:943-965 | the months of a field, from zero |
| CronParser.SetDaysOfWeek | libs/common/services/scripts/ccronexpr.c:967-988 | the weekdays of a field, with 7 folded to 0 and `?` as `*` |
| CronParser.SetDaysOfMonth | libs/common/services/scripts/ccronexpr.c:990-997 | the days of a field, with `?` as `*` |
| CronParser.CronParseExpr | libs/common/services/scripts/ccronexpr.c:999-1045 | succeeds exactly when the text has six fields that all mean something, and yields that meaning, with no set empty and all in range |
| CronParser.MeaningIsWellFormed | libs/common/services/scripts/ccronexpr.c:999-1045 | whatever parses has non-empty sets in the range of their fields |
| CronParser.MeaningMatches | libs/common/services/scripts/ccronexpr.c:1025-1040 | the parsed expression matches an instant exactly when its second is in the first field, its minute in the second, its hour in the third, its day in the fourth, its month from 1 in the fifth, and its weekday in the sixth, or it is Sunday and 7 is |
| CronParser.StarMeansAll | libs/common/services/scripts/ccronexpr.c:805-807 | `*` is the whole range |
| CronParser.StarDayIsOneStar | libs/common/services/scripts/ccronexpr.c:967-997 | a star for the day of month or the day of week gives an expression with one star |
| CronGrammar.ItemRead | libs/common/services/scripts/ccronexpr.c:877-934 | a written item parses exactly when its numbers are in order and range and its step is positive, and then holds the numbers written |
| CronGrammar.FieldRead | libs/common/services/scripts/ccronexpr.c:863-941 | the same for a list of items between commas: what one of them holds |
| CronGrammar.ScheduleParses | libs/common/services/scripts/ccronexpr.c:999-1045 | six written fields, between blanks and shorter than 256 characters, parse exactly when every one of them is in order |
| CronGrammar.ScheduleRead | libs/common/services/scripts/ccronexpr.c:999-1045 | and then match exactly the instants whose second, minute, hour, day, month and weekday these fields hold |
| CronGrammar.MarkIsStar | libs/common/services/scripts/ccronexpr.c:967-997 | for both day fields `?` means the same as `*` |
| CronGrammar.DailyMatches | libs/common/services/scripts/ccronexpr.c:999-1045 | "s m h * * *" parses and matches exactly the instants with that second, minute and hour |
| CronGrammar.QuarterPastNine | libs/common/services/scripts/ccronexpr.c:999-1045 | "0 15 9 * * *" matches exactly a quarter past nine |
| Scripts.Scheduler.CronSetNext | libs/common/services/scripts/scripts.c:160-181 | sets the next firing of one script and touches no other |
| Scripts.Scheduler.CronCheck | libs/common/services/scripts/scripts.c:457-489 | an effective check, 30000 ms after the last, treats every script alike, leaves disabled ones alone and moves the time of the last check; any other changes nothing |
| Scripts.Scheduler.TakeRequest | libs/common/services/scripts/scripts.c:508-517 | the earliest request, the first among equals, is taken and cleared |
| Scripts.FirstCheckArms | libs/common/services/scripts/scripts.c:478-481 | under the exact condition, the first check of an enabled script arms it for the first firing in the future and does not run it |
| Scripts.CheckIsExact | libs/common/services/scripts/scripts.c:473-486 | under the exact condition, a check requests a run exactly when a firing instant lies since the check before, once however many, and `next` ends in the future |
| Scripts.CheckIsSound | libs/common/services/scripts/scripts.c:473-486 | when the scan is honest, a check requests a run only when a firing instant lies since the check before |
| Scripts.MidnightRun | libs/common/services/scripts/scripts.c:473-486 | the script of the first Monday, 9:00, runs at midnight without a firing instant, and again at 9:00 |
| ScriptRuns.CheckAll | libs/common/services/scripts/scripts.c:457-489 | checks that take effect, one after another, do to every script what the run on values says |
| ScriptRuns.CheckRequests | libs/common/services/scripts/scripts.c:473-486 | in every run a check requests a run exactly when the script is due |
| ScriptRuns.RunIsSound | libs/common/services/scripts/scripts.c:457-489 | when the scan is honest, in every run from a loaded script a check requests a run only when a firing instant lies since the check before, and the first one never |
| ScriptRuns.RunsSoundIff | libs/common/services/scripts/scripts.c:457-489 | all runs are sound in this sense if and only if the scan is honest on every day of a cycle |
| ScriptRuns.ArmedThroughout | libs/common/services/scripts/scripts.c:457-489 | under the exact condition, after any run of checks the script waits for the first firing after the last one |
| ScriptRuns.RunIsExact | libs/common/services/scripts/scripts.c:457-489 | when `cron_next` is exact, or the scan is honest and nothing ever matches, in every run a check requests a run just when a firing instant lies since the check before |
| ScriptRuns.RunsExactIff | libs/common/services/scripts/scripts.c:457-489 | all runs are exact in this sense if and only if that condition holds |
| ScriptRuns.RequestsCountIntervals | libs/common/services/scripts/scripts.c:457-489 | under the same condition a run makes as many requests as there are intervals with a firing |
| ScriptRuns.RunsCountIff | libs/common/services/scripts/scripts.c:457-489 | in all runs these numbers agree if and only if the condition holds |
| ScriptRuns.NeverRuns | libs/common/services/scripts/scripts.c:473-481 | midnight of 31 February: no date has an answer, `cron_next` is not exact, and all runs are |
| CronTexts.SimpleField | libs/common/services/scripts/ccronexpr.c:863-941 | a field text without commas, dashes and slashes that means anything means the whole range or one number |
| CronTexts.PlainTextIsExact | libs/common/services/scripts/ccronexpr.c:999-1101 | a text with simple seconds, a star for one day field and a star for the months that parses is answered exactly for every date, and every run of its script is exact |
| CronTexts.LoadSchedule | libs/common/services/scripts/scripts.c:207-214 | the first schedule line makes a script valid just when its text parses, with its meaning; every run of a plain one is exact; "s m h * * *" matches exactly the instants with that second, minute and hour |
| Ota.Update.WriteFlash | libs/common/services/ota/ota_update.c:46-47 | a page write fails as the device decides and otherwise replaces exactly one page; what a write that begins within a page leaves is not known |
| Ota.Update.BuffCommit | libs/common/services/ota/ota_update.c:44-56 | a commit keeps the stream: what was buffered is hashed and, at the start of a page, in flash, or hash and buffer have not changed |
| Ota.Update.Reset | libs/common/services/ota/ota_update.c:137-157 | forgets the transfer; a slot that waits to be booted is left alone |
| Ota.Update.OpenImage | libs/common/services/ota/ota_update.c:17-42 | opens only the requested file of a started update, marks the slot invalid and starts an empty stream |
| Ota.Update.Fill | libs/common/services/ota/ota_update.c:88-101 | bytes that fit extend the stream, and a full buffer is committed |
| Ota.Update.StreamBytes | libs/common/services/ota/ota_update.c:88-102 | the copy loop appends the packet to the stream, whatever its length |
| Ota.Update.WritePacket | libs/common/services/ota/ota_update.c:74-105 | an accepted packet extends the stream; without flash failures every packet that fits is accepted |
| Ota.Update.CloseImage | libs/common/services/ota/ota_update.c:58-72 | commits the rest and asks for validation; without failures everything received is hashed, and in flash with zeros up to the next 256 bytes |
| Ota.Update.Validate | libs/common/services/ota/ota_update.c:159-192 | the slot becomes valid exactly when the digest of what was hashed agrees, if one is expected, and the bootloader accepts the flash up to the offset |
| Ota.Update.RunTick | libs/common/services/ota/ota_update.c:207-228 | a closed transfer is validated: exactly when the digest agrees, or none is expected, and the bootloader accepts the flash, the slot becomes valid and waits; a waiting slot is booted more than 2000 ms later; a transfer older than 300000 ms is given up; any other tick changes nothing |
| Ota.Update.Step | libs/common/services/ota/ota_update.c:17-228 | every event keeps the invariants: hashed bytes equal flash up to the offset unless a page is torn, which only a packet after a close can cause; a started update keeps its digest, and a waiting slot stays the accepted one; only a start that finds the device idle takes effect; and what each hook and a tick do to the stream, the slot and the flash |
| Ota.FirstStart | libs/common/services/ota/ota_update.c:194-205 | in every run from an idle device, the device stays idle and no digest is taken until the first start, which takes effect |
| Ota.ReadyIsPending | libs/common/services/ota/ota_update.c:58-72 | in every run a transfer is closed only when a close has come that no tick and no error has followed |
| Ota.Update.Run | libs/common/services/ota/ota_update.c:17-228 | in every run, with writes failing anywhere, the device passes through states that follow from one another by the events, and boots only a slot marked valid that passed the firmware check, with the digest of the last start that found it idle, when that carried one; unless a packet comes after a close that no tick or error has followed, the slot holds the bytes whose digest was taken |
| Ota.Update.OneUpdate | libs/common/services/ota/ota_update.c:17-228 | from an idle device, a start and then any events but another start: if the device boots the slot, the image in it has the digest that this start carried |
| Ota.Update.Transfer | libs/common/services/ota/ota_update.c:44-105 | without failures, any cutting into packets leaves the image hashed and in flash, with zeros up to the next 256 bytes |
| Ota.Update.Submit | libs/common/services/ota/ota_update.c:17-105 | from an idle device without failures, a start, an open, packets with ticks between them that do not time out, and a close: exactly the image is hashed and waits for validation, with the digest of the start |
| Ota.Update.Settle | libs/common/services/ota/ota_update.c:159-228 | the next tick makes the slot valid exactly when the digest agrees, or none is expected, and the firmware check accepts the image; a later tick boots it if and only if it comes more than 2000 ms after |
| Ota.Update.Deliver | libs/common/services/ota/ota_update.c:17-228 | both together: the device boots if and only if the image has the expected digest, or none is expected, the firmware check accepts it and the delay has passed; then the slot holds the image |
| VoltronicCrc.TableIsPoly | app/solar/mppt_voltronic_proto.c:22-27 | the table holds the multiples of the polynomial 0x1021 |
| VoltronicCrc.NibbleIsFourBits | app/solar/mppt_voltronic_proto.c:105-106 | a table step divides by four more bits |
| VoltronicCrc.TableIsDivision | app/solar/mppt_voltronic_proto.c:94-108 | the table loop equals bit-by-bit division, for every message and start value |
| VoltronicCrc.RemainderDivides | app/solar/mppt_voltronic_proto.c:94-108 | a message followed by its remainder, high byte first, leaves no remainder |
| VoltronicCrc.CheckValue | app/solar/mppt_voltronic_proto.c:94-108 | the text "123456789" has the remainder 0x31C3 |
| VoltronicCrc.AdjustedIsClean | app/solar/mppt_voltronic_proto.c:110-115 | the adjusted checksum has no reserved byte |
| VoltronicCrc.AdjustedHalves | app/solar/mppt_voltronic_proto.c:110-115 | each byte of the checksum is that of the remainder, or one more where that is 0x28, 0x0D or 0x0A; a remainder without these is the checksum itself |
| VoltronicCrc.CalculateCrc | app/solar/mppt_voltronic_proto.c:94-118 | computes the remainder of the message, each of its bytes stepped by one where it is 0x28, 0x0D or 0x0A |
| VoltronicLink.VerifyReply | app/solar/mppt_voltronic_proto.c:120-151 | the result for every buffer, and what it leaves in it: nothing changed on rejection, the payload cut off on acceptance |
| VoltronicLink.FrameBytes | app/solar/mppt_voltronic_proto.c:120-151 | a frame is the payload, the high and the low byte of its remainder, stepped where reserved, and 0x0D |
| VoltronicLink.FrameExample | app/solar/mppt_voltronic_proto.c:94-151 | "(B" is framed by E7 C9 0D, and this reply verifies with length 2 |
| VoltronicLink.FrameIsAccepted | app/solar/mppt_voltronic_proto.c:120-151 | every framed text verifies with its own length, whatever follows it |
| VoltronicLink.AcceptedIsFrame | app/solar/mppt_voltronic_proto.c:120-151 | nothing else does |
| VoltronicLink.VerifiesIffFrame | app/solar/mppt_voltronic_proto.c:120-151 | a reply verifies if and only if it begins with a frame |
| VoltronicLink.Link.HidReport | app/solar/mppt_voltronic_usb.c:682-704 | a report that fits is collected; one with a carriage return closes the reply and empties the buffer; one that does not fit is dropped |
| VoltronicLink.Link.ReceiveFrame | app/solar/mppt_voltronic_usb.c:682-704 | a padded frame in any split is processed at the report that holds its carriage return, and verifies with the payload's length |
| VoltronicCommands.Context.ResetState | app/solar/mppt_voltronic_usb.c:656-665 | every command gets its turn back |
| VoltronicCommands.Context.CmdNext | app/solar/mppt_voltronic_usb.c:773-786 | the scan ends, on the first command of the round that has a turn |
| VoltronicCommands.ChoiceIsNext | app/solar/mppt_voltronic_usb.c:773-786 | the choice is the first command with a turn from the position on, or, if there is none, the first of all |
| VoltronicCommands.CommandTable | app/solar/mppt_voltronic_usb.c:562-579 | the twelve commands in their order with their least reply lengths; exactly QPIGS, QET and QT recur |
| VoltronicCommands.AnswersRetire | app/solar/mppt_voltronic_usb.c:609-635 | a reply takes exactly the turn of the command sent last, when that does not recur, the reply is accepted and has the length of the table |
| VoltronicCommands.Context.ProcessKnown | app/solar/mppt_voltronic_usb.c:609-635 | only an accepted, long enough reply retires a command, and only a one-time one |
| VoltronicCommands.ChoiceApproaches | app/solar/mppt_voltronic_usb.c:773-786 | choosing another command brings the round closer to a waiting one |
| VoltronicCommands.EveryTurnComes | app/solar/mppt_voltronic_usb.c:773-786 | a command that keeps its turn is issued within as many selections as there are commands |
| VoltronicCommands.EventsMakeRun | app/solar/mppt_voltronic_usb.c:609-786 | the selections of any sequence of selections, replies and changes of the device make such a run |
| VoltronicCommands.TurnInRun | app/solar/mppt_voltronic_usb.c:609-786 | in every run, a command that has its turn throughout twelve selections in a row is issued in them |
| VoltronicCommands.TurnComesUp | app/solar/mppt_voltronic_usb.c:609-786 | in every run, a command with a turn comes up in any twelve selections in a row, if no reply answers it |
| VoltronicCommands.StaysSilent | app/solar/mppt_voltronic_usb.c:609-786 | a command without a turn is not issued until the device is attached or detached |
| VoltronicCommands.NoAnswer | app/solar/mppt_voltronic_usb.c:609-635 | only replies that are long enough and accepted answer a command, and none a recurring one |
| VoltronicCommands.Context.Handle | app/solar/mppt_voltronic_usb.c:609-786 | one event changes turns, position and last command as the value machine says, and a selection issues the command chosen |
| VoltronicCommands.Drive | app/solar/mppt_voltronic_usb.c:609-786 | the context makes the run on values and issues what it chooses; so every unanswered command with a turn, and every recurring one, is among any twelve commands issued in a row |
| Manchester.DecodeOfEncode | libs/common/src/manchester_code.c:9-57 | decoding undoes encoding, for either polarity |
| Manchester.EncodeOfDecode | libs/common/src/manchester_code.c:9-57 | encoding undoes decoding on every valid line |
| Manchester.EncodedPair | libs/common/src/manchester_code.c:9-29 | each bit is sent as the bit and its opposite, or the other way round when inverted |
| Manchester.DecodedPairs | libs/common/src/manchester_code.c:32-57 | a line is decoded if and only if the bits of each pair differ, to the first bits of the pairs, inverted when asked |
| Manchester.ManchesterEncode | libs/common/src/manchester_code.c:9-29 | the shifting loop produces the code of the frame's bits |
| Manchester.ManchesterDecode | libs/common/src/manchester_code.c:32-57 | it fails exactly on a line with an equal pair, leaving the result alone, and otherwise yields the decoded bits |
| OpenTherm.FrameRoundTrip | libs/common/devices/opentherm/opentherm_pio.c:20-48 | a frame has even parity, and decodes to the type, identifier and value it was made of |
| OpenTherm.FrameLayout | libs/common/devices/opentherm/opentherm_pio.c:20-32 | the bits on the wire: parity of the rest, three of type, four spare, eight of identifier, sixteen of value |
| OpenTherm.FrameDecodes | libs/common/devices/opentherm/opentherm_pio.c:34-48 | every word of even parity, and no other, is decoded, whatever its spare bits, to the fields in these places |
| OpenTherm.PairsDiffer | libs/common/src/manchester_code.c:9-57 | a line that still decodes differs from a code word twice as often as the bits do |
| OpenTherm.DistanceFour | libs/common/devices/opentherm/opentherm_pio.c:104-134 | one to three flipped line bits are rejected, none is received, and only a multiple of four flips can pass |
| OpenTherm.DistanceIsTight | libs/common/devices/opentherm/opentherm_pio.c:104-134 | four flips can turn one message into another |
| OpenTherm.SendWord | libs/common/devices/opentherm/opentherm_pio.c:107-108 | the line word of a request |
| OpenTherm.ReceiveWord | libs/common/devices/opentherm/opentherm_pio.c:125-133 | what a line word is received as |
| OpenThermSearch.SearchAdvances | libs/common/devices/opentherm/opentherm_pio.c:178-205 | every round that goes on comes closer to the end, whatever the device answers |
| OpenThermSearch.KindIs | libs/common/devices/opentherm/opentherm_pio.c:179-200 | a reply is silence without an end word or with an error, and clean when the end word is 0x80000000 and the line decodes |
| OpenThermSearch.SearchEnds | libs/common/devices/opentherm/opentherm_pio.c:175-205 | the search ends on a clean answer in range, or with no step left, or out of range, the unsigned wrap-around included |
| OpenThermSearch.Find | libs/common/devices/opentherm/opentherm_pio.c:162-212 | the loop computes that search within 1111099 exchanges, never divides by zero, and leaves the divider whose product with the found frequency is the clock |
| OpenThermSearch.BracketShrinks | libs/common/devices/opentherm/opentherm_pio.c:178-205 | each turn keeps the window between a silent and a garbled frequency, whole steps apart |
| OpenThermSearch.WindowIsFound | libs/common/devices/opentherm/opentherm_pio.c:175-205 | a device with a window of frequencies is found inside it, if and only if the window starts at or below 990001 Hz |
| Base64.GroupDigits | libs/common/src/base64.c:28-33 | three bytes are one 24-bit number written as four six-bit digits, as the RFC asks |
| Base64.LastDigits | libs/common/src/base64.c:36-47 | one or two bytes at the end are filled up with zero bits to whole digits and with pads to a group |
| Base64.LetterTable | libs/common/src/base64.c:13-16 | the letters are those of table 1 of the RFC, and the pad is "=" |
| Base64.IndexTable | libs/common/src/base64.c:70 | exactly the bytes that are no letter have no index |
| Base64.LettersNumber | libs/common/src/base64.c:74-80 | four letters are read back as the three bytes of the number they write; with one pad two bytes, with two pads one |
| Base64.ManExample | libs/common/src/base64.c:18-52 | "Man", "Ma" and "M" are encoded as "TWFu", "TWE=" and "TQ==" |
| Base64.DecodeOfEncode | libs/common/src/base64.c:18-84 | decoding undoes encoding for every byte string |
| Base64.DecodePrefix | libs/common/src/base64.c:54-84 | a prefix of 4k letters decodes to the first 3k bytes |
| Base64.EncodedFits | libs/common/src/base64.c:20 | text and terminator fit the allocation, which is used up exactly when one byte is left over |
| Base64.EncodedIsText | libs/common/src/base64.c:18-52 | encoded text has no zero byte |
| Base64.Base64Encode | libs/common/src/base64.c:18-52 | the loop writes the encoded text and its terminator within the buffer |
| Base64.Scan | libs/common/src/base64.c:70 | the table scan finds the letter's index, or 64 |
| Base64.Base64Decode | libs/common/src/base64.c:54-84 | null exactly for the empty text; else the decoded bytes and a terminator, all within the buffer |
| ConfigStore.SamePath | libs/common/services/cfg_store/cfg_store.c:164 | two names share a file exactly when they agree in their first 287 bytes |
| ConfigStore.StoredValue | libs/common/services/cfg_store/cfg_store.c:109-182 | a stored non-empty value reads back as its first 225 bytes, an empty one as nothing |
| ConfigStore.TornValue | libs/common/services/cfg_store/cfg_store.c:109-182 | of a text that was written in part, the bytes of its whole groups are read, up to 225; of at most one character, nothing |
| ConfigStore.RunKeepsTable | libs/common/services/cfg_store/cfg_store.c:79-107 | in every run the table stays within 100 names, without repeats, and keeps those it has |
| ConfigStore.RunRegisters | libs/common/services/cfg_store/cfg_store.c:79-210 | in every run a name that was set or read has a place, or the table has 100 names; and only names that were asked for get one |
| ConfigStore.CheckRegisters | libs/common/services/cfg_store/cfg_store.c:191-210 | checking a parameter whose file has a value gives it a place while there is one |
| ConfigStore.RunHolds | libs/common/services/cfg_store/cfg_store.c:109-245 | in every run a file holds what the last write or removal of its path left, a cut-off write the part that was accepted, undisturbed by other paths |
| ConfigStore.GetAfterRun | libs/common/services/cfg_store/cfg_store.c:212-235 | reading a parameter after any run gives the beginning of the last value written, exactly when its name has a place in the table |
| ConfigStore.GetAfterCut | libs/common/services/cfg_store/cfg_store.c:212-235 | the same after a write that was cut off: the whole groups that were written |
| ConfigStore.SetThenGet | libs/common/services/cfg_store/cfg_store.c:212-235 | the same for a write followed by a read |
| ConfigStore.TableIsFull | libs/common/services/cfg_store/cfg_store.c:152-182 | after 100 parameters the 101st is set with success, its file holds the value, and getting it gives nothing |
| ConfigStore.Store.Find | libs/common/services/cfg_store/cfg_store.c:79-93 | whether the name is in the table |
| ConfigStore.Store.Register | libs/common/services/cfg_store/cfg_store.c:95-107 | appends a name that was not found, if there is room |
| ConfigStore.Store.Read | libs/common/services/cfg_store/cfg_store.c:109-125 | decodes the beginning of the file, through the shared buffer |
| ConfigStore.Store.ParamSet | libs/common/services/cfg_store/cfg_store.c:152-182 | the new state, and success exactly when the whole text was written |
| ConfigStore.Store.ParamGet | libs/common/services/cfg_store/cfg_store.c:222-235 | the new table and the value read |
| ConfigStore.Store.ParamCheck | libs/common/services/cfg_store/cfg_store.c:191-210 | whether the parameter is known, registering it when its file has a value |
| ConfigStore.Store.ParamDel | libs/common/services/cfg_store/cfg_store.c:237-245 | removes the file and nothing else |
| JkBms.RunIsGood | libs/common/devices/bms_jk/bms_jk.c:261-351 | in every run the fill stays within 300 bytes, and ready means full, with the magic and the right checksum |
| JkBms.FrameIs | libs/common/devices/bms_jk/bms_jk.c:261-320 | a frame is 300 bytes that begin with 55 AA EB 90 and end with the sum of the others modulo 256 |
| JkBms.RunIsFromStream | libs/common/devices/bms_jk/bms_jk.c:261-320 | at any time the buffer is the unbroken beginning of what was accepted since some event |
| JkBms.FrameReceived | libs/common/devices/bms_jk/bms_jk.c:261-320 | from any state that is not waiting, a frame in pieces of at least four bytes is received, and exactly it, if and only if no later piece starts with the magic |
| JkBms.SessionHandsOver | libs/common/devices/bms_jk/bms_jk.c:261-351 | of any list of frames, each cut into pieces of at least four bytes and followed by a processing, just those without the magic at a later piece are handed over, whole and in order |
| JkBms.NoneIsLost | libs/common/devices/bms_jk/bms_jk.c:261-351 | when no later piece starts with the magic, these are all the frames, in their order |
| JkBms.Serve | libs/common/devices/bms_jk/bms_jk.c:261-351 | the device hands over just these frames |
| JkBms.CalcCrc | libs/common/devices/bms_jk/bms_jk.c:250-259 | the eight-bit sum |
| JkBms.Device.ProcessTerminal | libs/common/devices/bms_jk/bms_jk.c:261-320 | the buffer after a fragment; one that is short, off the terminal, or comes while a frame waits changes nothing |
| JkBms.Device.FrameProcess | libs/common/devices/bms_jk/bms_jk.c:322-351 | hands over the valid frame that was waiting, or nothing, and frees the buffer |
| JkBms.Device.CharcReset | libs/common/devices/bms_jk/bms_jk.c:100-108 | empties the buffer |
| MqttRate.StaysAccounted | libs/common/services/mqtt/mqtt_publish.c:228-247 | while failures and limit stay within 32 bits, the counter counts the sends of the window, of which no more succeed than allowed |
| MqttRate.AlwaysReflects | libs/common/services/mqtt/mqtt_publish.c:228-247 | in every run the fields hold what the events say: the last stamp, the sends of the window modulo 2^32, and when it opened |
| MqttRate.HeldBackIff | libs/common/services/mqtt/mqtt_publish.c:228-237 | after every run a message is held back if and only if the window has counted at least the limit, less than 60000 ms have passed since the event that opened it, or since boot, and the time of a last send is stamped |
| MqttRate.PublishedIff | libs/common/services/mqtt/mqtt_publish.c:228-247 | a message with a working send is published in just the other cases, and opens a window if and only if the window is full and 60000 ms old |
| MqttRate.MinuteLaterPublished | libs/common/services/mqtt/mqtt_publish.c:228-247 | a message that comes at least 60000 ms after the window opened is published, if its send works |
| MqttRate.EveryMinutePublished | libs/common/services/mqtt/mqtt_publish.c:228-247 | with a limit of one, a message every minute always goes through |
| MqttRate.WrapBreaksLimit | libs/common/services/mqtt/mqtt_publish.c:246 | the limit's packets, failed sends a minute later up to 2^32 in all, and one packet more: the counter has wrapped around, and the window has one packet too many |
| MqttRate.LimitIff | libs/common/services/mqtt/mqtt_publish.c:207-248 | for a limit of at least 1, every run in which no window sees more than F failed sends keeps the limit M in each window, if and only if F + M < 2^32 |
| MqttRate.ZeroLimit | libs/common/services/mqtt/mqtt_publish.c:231-247 | a limit of 0 lets one packet through per window, whatever sends fail |
| MqttRate.WindowBound | libs/common/services/mqtt/mqtt_publish.c:228-247 | from any point of such a run on, the limit for every window opened since, and the rest of the one under way |
| MqttRate.WindowsApart | libs/common/services/mqtt/mqtt_publish.c:231-244 | windows are at least 60000 ms apart |
| MqttRate.OneWindowPerMinute | libs/common/services/mqtt/mqtt_publish.c:231-244 | less than a minute opens at most one window |
| MqttRate.MinuteBound | libs/common/services/mqtt/mqtt_publish.c:207-248 | any stretch of such a run shorter than a minute has at most twice the limit |
| MqttRate.BootBound | libs/common/services/mqtt/mqtt_publish.c:207-248 | such a run of any length has at most the limit for every minute begun since boot |
| MqttRate.Context.MsgPublish | libs/common/services/mqtt/mqtt_publish.c:207-248 | the limiter after a message and the result, which is 0 exactly when the device is connected, the message short enough, not held back, and its send works; a message that is too long or not connected changes nothing |
| Samples.SortSamples | libs/common/src/sys_utils.c:104-113 | the in-place sort computes the bubble sort on values; it keeps the samples if and only if none wider than 16 bits stands before a smaller one, and then sorts them |
| Samples.WideSampleIsLost | libs/common/src/sys_utils.c:104-113 | of the samples 65536 and 0 only zeros are left, and the mean is 0 instead of 32768 |
| Samples.SamplesFilter | libs/common/src/sys_utils.c:98-121 | the same, and the result is that quotient for the sorted samples without the dropped ones at both ends |
| Samples.MeanIsQuotient | libs/common/src/sys_utils.c:115-120 | the mean is the quotient, rounded down, of the sum of the middle modulo 2^32 by the number of samples in it |
| Samples.MeanIsTrue | libs/common/src/sys_utils.c:115-118 | the accumulator gives the true mean exactly when the sum fits 32 bits |
| Samples.TrimmedMeanIsRobust | libs/common/src/sys_utils.c:98-121 | if all but at most the dropped number of samples lie in an interval, so does the result |
| Samples.NarrowSamples | libs/common/src/sys_utils.c:98-121 | up to 65536 samples of 16 bits meet all conditions |

## Left out

- CronNext.Calendar.DoNext: the body of `do_next` is split into the second and one method each for minute, hour, day and month; bit arrays are sets of positions, and the reset list is a sequence instead of seven slots.
- CronNext.Calendar.SettleMonth: the unsigned comparison of the year with its limit is read as signed; the two agree because the year never falls below the starting one.
- CronNext.Calendar.AddToField: instants are unbounded integers; the end of a 64-bit `time_t` is not modelled.
- CronParser.CronParseExpr: names of months and days count as already replaced by numbers, and `strtol` is taken on digit strings; null arguments and failed allocations are not modelled.
- Scripts.Scheduler.CronCheck: one clock reading serves a whole check; notification, start-up scripts, execution and MQTT reports of scripts are not modelled.
- ScriptRuns.RunsExactIff: scripts are loaded before the run; enabling and reloading between checks is not modelled. The calendar clock may advance at any pace between checks.
- Ota.Update.Run: updates of the digest never fail, and user commands are refused between validation and reboot.
- CronTexts.LoadSchedule: only the first schedule line of a script is modelled; names of months and days count as replaced.
- Ota.Update.WriteFlash: what the flash holds after a write that begins within a page, over bytes programmed before, depends on the device and is left open.
- Ota.Update.Validate: SHA-256, its hexadecimal form and the bootloader's check are uninterpreted functions of the bytes.
- VoltronicLink.Link.HidReport: a reply is taken to answer a known command; parsing the values in it is left out.
- VoltronicCommands.Context.ProcessKnown: whether a handler accepts a reply is a parameter.
- Manchester.ManchesterEncode: machine words are naturals, and masks and shifts are written as division, remainder and multiplication.
- OpenThermSearch.Find: the second and third loops, which widen a found frequency, have no end that the code decides; the exchange itself, its timeouts and the divider restored on failure are hardware.
- Base64.Base64Encode: the group buffers of encoder and decoder are values, not arrays.
- ConfigStore.Store.ParamSet: the file system is a map; a failed write keeps a prefix. Listing, purging and resetting parameters are left out.
- JkBms.Device.FrameProcess: the values read out of a frame are left out.
- Samples.SamplesFilter: the sample count is the length of the array.
- `cron_prev` and its helpers repeat the forward search and are not used by the scheduler.
- Connections, discovery messages, web server, webhooks, WiFi, NTP, logs and the USB, TFTP and Bluetooth stacks are network plumbing.
- Sensor formulas over floating point, display output and command tokenising would only add easy members.
- Locks: callbacks and the main loop are interleaved as atomic steps.
