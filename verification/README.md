# Verified model of linux-common-library

A Dafny model of the parts of the library whose behaviour is hardest to see from
the code, with proofs for all inputs and all runs.

- **Calendar** (`Instants`, `Calendar`): leap years, weekdays and `make_time`.
- **Cron** (`CronRules`, `CronSearch`, `CronTheorems`, `CronContract`,
  `CronEveryDay`, `CronLimits`, `CronJob`, `CronQueue`, `CronQueueMeaning`,
  `CronPast`): the next-run
  search of `CronJob::calcNext` and the job queue. The search is a state machine
  whose iterations are all runs, also the endless ones; the object version with
  its linked checks and nested loops is proved to compute its outcome.
- **Serialization** (`Schemas`, `Format`, `Decoding`, `Acceptance`, `RoundTrip`,
  `RoundTripExact`, `ListProgress`, `JsonTree`, `Encoder`, `Decoder`,
  `Overwriting`, `PartialMembers`): a schema describes what an `ObjectAssembler` knows about a
  type. Encoding writes into a JSON tree through references, decoding reads with a
  cursor. Decoding what was encoded gives the *normal form* of the value, and the
  value itself exactly when it is *plain*; into an object with content it gives
  the *merge* of both.
- **Migration** (`Migration`, `MigrationRollback`): changeset selection and
  application, upwards and downwards.
- **PacketBuffer**, **Paths** and **Directories**: the bounded buffer; path
  functions; `mkdirs`.

`dafny verify dfyconfig.toml` checks everything.

## How the code differs from its documentation

The model follows the code.

- Day of month and day of week must both hold; classic crontab accepts either.
- A step counts from 0, not from the start of its range: `examples/cron.cc`
  calls `1-59/2` odd minutes and `9-18/2` odd hours, but only even values satisfy
  the rule.
- After an overflow a field restarts at its range minimum without looking at its
  step, so a returned minute may break its own rule (`ReturnsUnmatchedInstant`;
  `CronEveryDay.SoundIff` says for which rules).
- The year has nothing to overflow into and restarts at its minimum, so the
  search can return an instant that has passed (`ReturnsPastInstant`), for which a
  job is then performed again (`PastRunFiresAgain`, `PastRunInstance`), or never end
  (`NeverHaltsOnImpossibleDate`, `NeverHaltsOnEmptyField`). `CalcNext` therefore
  takes the length of the run as a ghost argument. A length exists whenever any
  instant matches, with robust rules and years ending before 2099 only then
  (`HaltsIffMatchExists`), and always for the rules of `TotalForEveryYearRules`.
- Rollback is not the inverse of update. It includes the task of the target
  version, and the stored version becomes that of the lowest task undone, whatever
  the target: no update redoes that task, and another rollback undoes it again
  (`UpdateRestoresIffNothingUndone`, `RollbacksRepeatIffBothUndo`). Upwards, a task
  whose version is already stored is skipped (`EqualVersionsAreSkipped`).
- An optional in an array that fails to parse can take the item after it along
  (`SkipsSecondIff`, `OptionalListCanSkip`), and a list of optional leaf values
  repeats for ever on a nested array or object (`OptionalListHangsIff`,
  `OptionalListCanHang`).
- A general map is not cleared before it is read, unlike a list or a string-keyed
  map, so partial deserialization keeps its old entries (`MapKeepsOldEntries`).
- Members of one name overwrite each other where `extend` and `defineAs` accept
  what `define` refuses (`LastWriterIsRead`).
- `mkdirs` reports failure for a missing directory spelled with two slashes at the
  end, although it makes it (`DoubleSlashFails`).

## Model

| member | source | states |
|---|---|---|
| Calendar.LeapIsGregorian | components/stdutils/src/timeutils.cc:45-48 | the bit test for leap years is the Gregorian 4/100/400 rule, for every year including negative ones |
| Calendar.ZeroBasedMonth | components/stdutils/src/timeutils.cc:9-16 | every month number is brought into 0..11, congruent to month - 1, although C++ `%` truncates |
| Calendar.MakeTime | components/stdutils/src/timeutils.cc:69-89 | the year and month loops compute the day count and the seconds that the recursive definition sums up |
| Calendar.MakeTimeIsPosix | components/stdutils/src/timeutils.cc:69-89 | the result is the POSIX Seconds-Since-the-Epoch formula if and only if the year is 1970 or later; every earlier year counts as 1970 |
| Calendar.YearClosedForm | components/stdutils/src/timeutils.cc:74-77 | the year loop accumulates 365 days a year plus the Gregorian leap days |
| Calendar.WeekDayIsDayCount | components/stdutils/src/timeutils.cc:58-67 | the shift-table weekday is the day count of `make_time` since Thursday 1970-01-01, modulo 7 |
| Calendar.MakeTimeEmbedsOrder | components/stdutils/src/timeutils.cc:50-89 | on real dates from 1970 on timestamps are ordered exactly as the civil instants, so `make_time` is injective |
| Calendar.MonthLengths | components/stdutils/src/timeutils.cc:50-56 | the length of a month is 30, 31 or, by the Gregorian rule, 28 or 29 days |
| Calendar.MonthIsDifference | components/stdutils/src/timeutils.cc:50-82 | it is what the month loop of `make_time` adds for that month |
| Calendar.EveryDayIsADate | components/stdutils/src/timeutils.cc:50-82 | from 1970 on every day number belongs to exactly one real date, so the date test and the loops of `make_time` agree |
| CronRules.MakeField | components/system/src/cron.cc:166-216 | a range rule is refused exactly when it is reversed (an invalid rule), leaves the field's bounds, or steps a `*` by less than 1 or more than the maximum (unsatisfiable); otherwise it is the range or number given, or the whole range for `*` |
| CronRules.MakeRules | components/system/src/cron.cc:416-427 | all rules the parser accepts lie within the calendar's bounds, and the year rule starts no earlier than the current year |
| CronRules.RulesAcceptedIff | components/system/src/cron.cc:416-427 | a rule text is accepted if and only if each of its five ranges is within its bounds, each range then stands for its own part, and otherwise the first refused one gives the error |
| CronContract.MatchesMeans | components/system/src/cron.cc:230-361 | an instant satisfies all seven rules if and only if each part is in its range and a multiple of its step, it is a real date and time, and the date falls on an allowed weekday counted from the epoch |
| CronRules.IncrAdvances | components/system/src/cron.cc:236-263 | an increment strictly advances the candidate with every lower part at its minimum, or wraps the year to the first candidate of all |
| CronRules.IncrSkips | components/system/src/cron.cc:236-263 | no instant an increment jumps over satisfies the range rules, through chained overflow and year wrap |
| CronRules.RuleIncrSkips | components/system/src/cron.cc:320-361 | an increment made because a rule fails, weekday and real date included, jumps only over instants that match no rule set |
| CronSearch.IncrFields | components/system/src/cron.cc:236-263 | an increment leaves a part alone, sets it to its minimum, or adds one within its maximum |
| CronSearch.PositionIncr | components/system/src/cron.cc:444-452 | each increment of a run preserves the record of what has been passed over; a second wrap means that nothing matches at all |
| CronSearch.RunInv | components/system/src/cron.cc:438-457 | position and pass invariants hold after any number of steps of any run |
| CronTheorems.OutcomeUnique | components/system/src/cron.cc:413-463 | the outcome of a run is unique |
| CronTheorems.FoundInRange | components/system/src/cron.cc:441-463 | for any rules with nonzero steps a returned candidate is in range, on an allowed weekday, a real date and before 2099 |
| CronTheorems.FoundOnWeekday | components/system/src/cron.cc:330-339 | the returned date falls on an allowed weekday when weekdays are counted from the epoch |
| CronTheorems.FoundMatchesIffAligned | components/system/src/cron.cc:230-263 | a returned candidate satisfies all seven rules if and only if the parts below the last one moved in the accepting pass are aligned with their steps |
| CronTheorems.FoundIsSound | components/system/src/cron.cc:230-263 | if every field below one that can move is aligned, whatever is returned satisfies all seven rules |
| CronTheorems.FoundIsMinimal | components/system/src/cron.cc:429-457 | without a year wrap no instant between now and the result matches; after one, none matches ahead of now nor before the result |
| CronTheorems.ExhaustedIsTruthful | components/system/src/cron.cc:453-456 | Unsatisfiable is thrown only when nothing after now and before 2099 matches, wrapped or not |
| CronTheorems.HaltsFrom | components/system/src/cron.cc:441-457 | from any reachable state the search ends if any instant matches: the candidate climbs and can wrap only once |
| CronTheorems.FindsNextRun | components/system/src/cron.cc:413-463 | if a match lies ahead before 2099 the search halts with a later instant not past it, and with robust rules with the very next match |
| CronTheorems.ReturnsLaterIffMatchAhead | components/system/src/cron.cc:413-463 | with robust rules a halting search returns a later instant if and only if a match lies ahead before 2099 |
| CronTheorems.ReturnsPastRun | components/system/src/cron.cc:246-251 | with robust rules, years ending before 2099 and no match ahead, the first match of all is returned, which is not after now |
| CronTheorems.HaltsIffMatchExists | components/system/src/cron.cc:441-457 | with robust rules and years ending before 2099 the search halts if and only if some instant matches |
| CronTheorems.NeverWraps | components/system/src/cron.cc:236-255 | with aligned rules, any weekdays, every year and a current year of at most 2097 the year never wraps, given that in 2099 the weekday and the real date cannot push the candidate past its last date |
| CronTheorems.SafeRules | components/system/src/cron.cc:320-361 | that is given for rules that take every weekday and for rules whose months and days span three dates or more |
| CronTheorems.HaltsWithoutWrap | components/system/src/cron.cc:438-457 | such a search always ends, because the candidate strictly climbs |
| CronTheorems.TotalForEveryYearRules | components/system/src/cron.cc:413-463 | for such rules the result is the next match if there is one before 2099 and Unsatisfiable otherwise |
| CronTheorems.StarIsEveryYear | components/system/src/cron.cc:425-426 | the rules parsed from `*` for the year take every year up to 2097 |
| CronContract.CalcNextContract | components/system/src/cron.cc:413-463 | both directions of what a caller may conclude from any result: next match, first match of all in the past, or none ahead |
| CronContract.LaterTimestamp | components/system/src/cron.cc:102-113 | with UTC as local time a returned instant is later than now exactly when its timestamp is, at any second of now's minute |
| CronEveryDay.SoundIff | components/system/src/cron.cc:230-263 | for any minutes, hours, days and months on every weekday and in every year, every returned instant satisfies the rules if and only if each field that does not start on its step has only unrestricted fields above it, or a field allows nothing |
| CronEveryDay.DailySoundIff | components/system/src/cron.cc:230-263 | for rules on minute and hour only this says that the minute range starts on its step, every hour is allowed, or a field allows nothing |
| CronLimits.ReturnsPastInstant | components/system/src/cron.cc:246-251 | `* * * * * y` in the last minute of year y yields the first minute of that year |
| CronLimits.ReturnsUnmatchedInstant | components/system/src/cron.cc:257-263 | `1-59/2 10 * * * *` at 05:00 yields 10:01, a minute its own step excludes |
| CronLimits.NeverHaltsOnEmptyField | components/system/src/cron.cc:446-452 | a range without an allowed value, or a `*` year after 2099, makes the search run for ever |
| CronLimits.NeverHaltsOnImpossibleDate | components/system/src/cron.cc:441-457 | `0 0 30 2 5 *` in 2098 never throws Unsatisfiable and never ends |
| CronJob.Check.Valid | components/system/src/cron.cc:230-361 | each check's test is its rule |
| CronJob.Check.Incr | components/system/src/cron.cc:236-255 | incrementing through the overflow and reset pointers is the increment on values, and only weekday and date ask to start over |
| CronJob.Check.IncrRange | components/system/src/cron.cc:236-255 | the increment of a range check, carried through its overflow pointer and completed through its reset pointer, is the increment on values |
| CronJob.Check.Reset | components/system/src/cron.cc:257-263 | reset through the pointers sets its part and all lower ones to their minimum |
| CronJob.BuildRules | components/system/src/cron.cc:421-436 | the linking loop and the two extra links build the overflow and reset chains |
| CronJob.SettleRule | components/system/src/cron.cc:446-451 | the inner loop follows the search step by step until the rule holds or the pass must start over |
| CronJob.CalcNext | components/system/src/cron.cc:413-463 | the nested loops report a parse error or the outcome of the search |
| CronQueue.SortSorts | components/system/src/cron.cc:506 | sorting the queue gives the same jobs in order of next time |
| CronQueue.SortIsStable | components/system/src/cron.cc:637 | jobs with equal times keep their order |
| CronQueue.PassConsistentIff | components/system/src/cron.cc:610-637 | a pass sorts the queue, and keeps ids unique and performed times increasing if and only if every due job gets a time later than the one it is performed for, or after a clock change later than those it was performed for |
| CronQueue.QuitKeptIff | components/system/src/cron.cc:617-621 | ending the worker keeps ids unique and performed times increasing if and only if every job rescheduled before got a later time |
| CronQueue.ApplyKeptIff | components/system/src/cron.cc:491-638 | the same condition decides for every event; adding a job and a pass sort the queue, removing one keeps it sorted |
| CronQueue.RunsAreConsistent | components/system/src/cron.cc:491-638 | in every run of additions, removals, passes and ends of the worker in which rescheduled jobs get later times, ids are unique and below the next id and each job's performed times strictly increase; the queue is sorted except between an end of the worker and the next addition or pass |
| CronQueue.RunsAreConsistentIff | components/system/src/cron.cc:491-638 | a run keeps these promises at every moment if and only if every due job it reschedules gets a later time |
| CronQueue.RescheduledLater | components/system/src/cron.cc:626 | a job with a run ahead is rescheduled to a real instant strictly after the clock reading |
| CronQueue.Cron.AddJob | components/system/src/cron.cc:491-518 | adds the job with its computed time under the next id: the jobs are the old ones and the new, in order of time, jobs of one time in their old order with the new one last; or returns the invalid id and changes nothing, exactly without callback or on an unusable rule |
| CronQueue.Cron.RemoveJob | components/system/src/cron.cc:538-542 | takes the job of that id out, leaves the others where they were and keeps the queue sorted if it was |
| CronQueue.Cron.Worker | components/system/src/cron.cc:600-637 | the worker stays alive if and only if the clock has changed or the callback of every job due by now returns true, and then performs and reschedules exactly the due jobs and sorts; otherwise it ends at the first due job whose callback returns false, which is removed; either way the promises are kept exactly when the new times are later, as where every due job has a run ahead |
| CronQueue.RunsAheadCanScan | components/system/src/cron.cc:600-637 | where every due job has a run ahead and the clock does not go back, each search ends with an instant |
| CronQueue.QuitRemovesOne | components/system/src/cron.cc:617-621 | ending the worker removes the job whose callback returned false and no other |
| CronQueue.AddMeans | components/system/src/cron.cc:504-508 | adding a job puts it behind those of its own time, whose order stays, and touches nothing else |
| CronQueueMeaning.AtMeans | components/system/src/cron.cc:506 | the jobs of one time are listed in queue order, so the order kept by sorting is that of the list |
| CronQueueMeaning.PassMeans | components/system/src/cron.cc:610-637 | a pass performs the due jobs in queue order, each for the time it waited for, none after a clock change, gives each its new time and no other job one, and sorts stably |
| CronQueueMeaning.QuitMeans | components/system/src/cron.cc:610-622 | a pass that ends the worker performs the due jobs up to the refusing one, takes that one out of its place, and leaves those after it as they were |
| CronQueueMeaning.NextTimeMeans | components/system/src/cron.cc:102-113 | a rescheduled job waits for the whole minute the search found, as a POSIX timestamp |
| CronPast.GetsFirstMatch | components/system/src/cron.cc:246-251 | a job with robust rules, years ending before 2099 and no run ahead gets the time of its first match of all, which has passed |
| CronPast.PastRunFiresAgain | components/system/src/cron.cc:610-637 | such a job is performed again by the next pass, for a time not later than before |
| CronPast.PastRunInstance | components/system/src/cron.cc:610-637 | an instance: a job for every minute of a year, due in the last one, gets the first one |
| RoundTrip.EnumRoundTrip | include/common/serialization/details/assembler_specializations/enum.hh:85-121 | the name found for an enumeration value leads back to the value, also when names share a value |
| RoundTrip.PutMembersFrame | include/common/serialization/object_assembler.hh:106-113 | serializing a struct writes the names of its members, ancestors included, and no other |
| RoundTrip.PutMembersHolds | include/common/serialization/object_assembler.hh:256-272 | with distinct names every member, also an ancestor's, is found in the object afterwards |
| RoundTrip.ListFormat | include/common/serialization/details/assembler_specializations/list_or_vector.hh:78-84 | a list is an array with the encoding of each element at its position |
| RoundTrip.MapFormat | include/common/serialization/details/assembler_specializations/maps.hh:103-114 | a general map is an array of objects that hold the key under `__mapKey__` and the value under `__mapValue__`, an empty optional left out, and nothing else |
| RoundTrip.StringMapFormat | include/common/serialization/details/assembler_specializations/maps.hh:200-210 | a string-keyed map is an array of objects that hold the value under the key and nothing else |
| Format.EncodesIffNameable | include/common/serialization/details/assembler_specializations/enum.hh:85-104 | a value of any schema can be encoded if and only if every enumeration value inside it has a name |
| Format.EncodedAs | include/common/serialization/details/assembler_specializations/enum.hh:85-104 | numbers, booleans and texts are written as themselves, signed or unsigned as their type, an enumeration value as the first of its names, everything else as an array or object |
| Format.IntegerBounds | include/common/serialization/details/assembler_specializations/arithmetic.hh:82-132 | the bounds of the integer types are those of two's complement numbers of 8 to 64 bits |
| Format.OptionalFormat | include/common/serialization/details/assembler_specializations/optional.hh:26-45 | an empty optional, however nested, is left out of an object and null in an array; a filled one is its content |
| Format.ElementFormat | include/common/serialization/object_assembler.hh:115-125 | anything else is stored under its name and pushed to an array as it is encoded, never as null |
| Format.TupleFormat | include/common/serialization/details/assembler_specializations/tuple.hh:50-67 | a tuple is an array with the encoding of each element at its position |
| Format.RootFormat | components/serialization/extensions/json/src/json_array_serializer.cc:60-70 | the root array of a list, tuple or map is its encoding itself, that of anything else holds one item |
| RoundTrip.ElementRoundTrip | include/common/serialization/object_assembler.hh:196-201 | a struct member of any schema decodes to the normal form of the encoded value, in memory and through text |
| RoundTrip.ItemRoundTrip | components/serialization/extensions/json/src/json_array_deserializer.cc:36-96 | an array item of any schema, an empty optional's null included, decodes to the normal form and moves the cursor by exactly one slot |
| RoundTrip.ListRoundTrip | include/common/serialization/details/assembler_specializations/list_or_vector.hh:78-101 | a list decodes element by element and stops exactly at the end of the array |
| RoundTrip.TupleRoundTrip | include/common/serialization/details/assembler_specializations/tuple.hh:50-84 | a tuple decodes position by position |
| RoundTrip.MapRoundTrip | include/common/serialization/details/assembler_specializations/maps.hh:103-135 | a general map decodes to its entries, merged where keys coincide in normal form |
| RoundTrip.StringMapRoundTrip | include/common/serialization/details/assembler_specializations/maps.hh:200-231 | a string-keyed map decodes to its entries without those holding an empty optional |
| RoundTrip.MembersRoundTrip | include/common/serialization/object_assembler.hh:165-172 | a struct decodes member by member, through ancestors and conversions |
| RoundTrip.PlainIsNormal | include/common/serialization/details/assembler_specializations/optional.hh:26-94 | a value without optionals directly around empty ones, without lost map entries and with inverse conversions is its own normal form |
| RoundTripExact.RoundTripIffPlain | include/common/serialization/details/assembler_specializations/optional.hh:26-94 | without conversions an item decodes to the encoded value if and only if the value is plain; the cursor moves one slot in every case |
| RoundTripExact.NormalMapIsPlain | include/common/serialization/details/assembler_specializations/maps.hh:116-135 | a general map that survives had distinct keys and plain entries |
| RoundTripExact.NormalStringMapIsPlain | include/common/serialization/details/assembler_specializations/maps.hh:212-231 | a string-keyed map that survives had distinct names and no empty optional |
| RoundTripExact.RootStructRoundTrip | components/serialization/extensions/json/src/json_struct_serializer.cc:54-57 | a root struct decodes to its normal form, which is the struct itself if and only if it is plain (without conversions) |
| RoundTripExact.RootArrayRoundTrip | components/serialization/extensions/json/src/json_array_deserializer.cc:98-110 | a value written by the root array serializer is read back in normal form, which without conversions is the value itself if and only if it is plain and no filled optional writes an array that is empty or starts with null |
| RoundTripExact.LastWriterIsRead | include/common/serialization/object_assembler.hh:64-113 | every member of a name, of any schema and at any depth of ancestors, decodes what the last member of that name stored, as if nothing else had been written |
| RoundTripExact.SameNameReadsLater | include/common/serialization/object_assembler.hh:64-113 | of two members of one name and schema the earlier comes back as the value of the later, so it survives if and only if the two have the same normal form |
| RoundTripExact.NestedOptionalLosesLevel | include/common/serialization/details/assembler_specializations/optional.hh:35-45 | an optional around an empty optional comes back empty |
| RoundTripExact.NarrowingIsExact | include/common/serialization/details/assembler_specializations/arithmetic.hh:82-132 | a 64-bit number is accepted exactly when the target integer type can hold it |
| ListProgress.SticksIff | include/common/serialization/details/assembler_specializations/optional.hh:71-94 | an item of any schema is decoded without moving the cursor if and only if it is an optional, however nested, of a leaf type and meets an array or object |
| ListProgress.OptionalListHangsIff | include/common/serialization/details/assembler_specializations/list_or_vector.hh:86-101 | the loop over a list of optional leaves never ends if and only if a nested array or object lies ahead, and succeeds otherwise |
| ListProgress.OnlyOptionalLeavesStick | include/common/serialization/details/assembler_specializations/list_or_vector.hh:86-101 | every other list hangs only inside one of its items |
| ListProgress.SkipsSecondIff | include/common/serialization/details/assembler_specializations/optional.hh:71-94 | an optional item of any schema takes a second slot if and only if its content throws after the cursor moved and a primitive follows |
| ListProgress.OptionalListCanHang | include/common/serialization/details/assembler_specializations/optional.hh:71-94 | an instance: a list of optional numbers on a nested array never ends |
| ListProgress.OptionalListCanSkip | include/common/serialization/details/assembler_specializations/optional.hh:71-94 | an instance: the number after a text is lost with it |
| JsonTree.PushMakesStale | components/serialization/extensions/json/src/json_array_serializer.cc:43-53 | a reference to an array item is no longer current once the array receives another |
| JsonTree.FillChild | components/serialization/extensions/json/src/json_struct_serializer.cc:37-47 | writing through a child reference is writing the parent with that child replaced |
| JsonTree.Tree.OpenMember | components/serialization/extensions/json/src/json_struct_serializer.cc:37-47 | an empty node is stored under the name and the returned reference is current |
| JsonTree.Tree.OpenItem | components/serialization/extensions/json/src/json_array_serializer.cc:43-53 | an empty node is pushed and the returned reference is current |
| JsonTree.Tree.PushBack | components/serialization/extensions/json/src/json_array_serializer.cc:13-41 | the array gets the value at its end; of all references to its items exactly the one to the new item is current, and the reference to the array stays so |
| Encoder.EncodeElementInto | include/common/serialization/object_assembler.hh:148-153 | encoding in place, every write through a current reference, stores exactly the encoding under the name and changes nothing else; it fails exactly on an unnamed enumeration value |
| Encoder.EncodeItemInto | include/common/serialization/object_assembler.hh:120-125 | likewise one item is pushed to the array |
| Encoder.EncodeListInto | include/common/serialization/details/assembler_specializations/list_or_vector.hh:78-84 | the list loop pushes the encodings in order |
| Encoder.EncodeTupleInto | include/common/serialization/details/assembler_specializations/tuple.hh:50-67 | the index recursion pushes the encodings in order |
| Encoder.EncodeMapInto | include/common/serialization/details/assembler_specializations/maps.hh:103-114 | the map loop pushes one object per entry, in the format of MapFormat, and fails exactly on an unnamed enumeration value |
| Encoder.EncodeStringMapInto | include/common/serialization/details/assembler_specializations/maps.hh:200-210 | the string map loop pushes one single-key object per entry |
| Encoder.EncodeMembersInto | include/common/serialization/object_assembler.hh:106-113 | the member loop writes into one object, an ancestor's members into the same |
| Decoder.ArrayReader.Value | components/serialization/extensions/json/src/json_array_deserializer.cc:36-49 | the cursor moves only when a primitive is returned |
| Decoder.ArrayReader.Deserialize | components/serialization/extensions/json/src/json_array_deserializer.cc:56-86 | the cursor moves past a nested item, also when reading it throws |
| Acceptance.ExtractsIff | include/common/serialization/details/assembler_specializations/arithmetic.hh:74-155 | a leaf is read from exactly the JSON values that denote one of its own: integers in range, floats also from integers, texts, booleans, names of the enumeration; everything else throws |
| Acceptance.LeafMemberIff | components/serialization/extensions/json/src/json_struct_deserializer.cc:63-71 | a leaf member is read from what its name holds; absent, null, nested and foreign values throw |
| Acceptance.AbsentMember | include/common/serialization/details/assembler_specializations/list_or_vector.hh:57-67 | where a name holds nothing but null an optional is empty, a leaf or a list throws, and any other container fails an assertion |
| Acceptance.OptionalMember | include/common/serialization/details/assembler_specializations/optional.hh:47-69 | an optional member never throws: it is empty exactly where nothing but null is stored or reading the content throws, and otherwise holds what is read |
| Acceptance.OptionalSwallowsText | include/common/serialization/details/assembler_specializations/optional.hh:54-63 | an instance: an optional number on `{"x": "abc"}` is left empty |
| Acceptance.OptionalItem | include/common/serialization/details/assembler_specializations/optional.hh:71-94 | an optional array item is empty on null or where reading the content throws, and otherwise holds what is read |
| Acceptance.LeafItemIff | include/common/serialization/details/assembler_specializations/arithmetic.hh:33-36 | a leaf item is read like a member |
| Acceptance.ItemAtEnd | components/serialization/extensions/json/src/json_array_deserializer.cc:36-98 | at the end of the array an optional is empty, a leaf throws and a container fails an assertion, the cursor staying |
| Acceptance.ItemOfNoArray | components/serialization/extensions/json/src/json_array_deserializer.cc:36-98 | every item of something that is no array throws |
| Acceptance.EmptyListIff | include/common/serialization/details/assembler_specializations/list_or_vector.hh:86-101 | an empty list is read from exactly an empty array, an empty object and null |
| Acceptance.ContainerOfNoArray | include/common/serialization/details/assembler_specializations/maps.hh:116-135 | lists and maps read nothing else that is no array |
| Acceptance.RootReads | components/serialization/extensions/json/src/json_array_deserializer.cc:98-110 | the root array is read as a container itself and as anything else from its first item, an optional being empty where that is absent, null or unreadable |
| Acceptance.RootOfNoArray | components/serialization/extensions/json/src/json_array_deserializer.cc:98-110 | of roots that are no array only null and an empty object can be read |
| Acceptance.ListReadsIff | include/common/serialization/details/assembler_specializations/list_or_vector.hh:86-101 | a list without optional elements is read if and only if every slot is, in order |
| Acceptance.TuplePosition | include/common/serialization/details/assembler_specializations/tuple.hh:69-84 | a tuple without optional elements takes each element from its own slot and ignores further ones |
| Acceptance.TupleFailure | include/common/serialization/details/assembler_specializations/tuple.hh:69-84 | otherwise it fails as one of its positions does |
| Acceptance.MembersReadIff | include/common/serialization/object_assembler.hh:165-172 | a struct is read if and only if every member is; otherwise the first that is not decides the failure |
| Acceptance.MapReadsIff | include/common/serialization/details/assembler_specializations/maps.hh:116-135 | a general map is read if and only if every slot holds a readable key and value under the reserved names |
| Acceptance.LastEntryWins | include/common/serialization/details/assembler_specializations/maps.hh:116-135 | a key then has the value of the last slot that holds it |
| Acceptance.OtherKeysStay | include/common/serialization/details/assembler_specializations/maps.hh:116-135 | keys that no slot holds keep what they had |
| Acceptance.StringMapReadsIff | include/common/serialization/details/assembler_specializations/maps.hh:212-231 | a string-keyed map is read if and only if every slot is null, empty, or an object all of whose members can be read |
| Acceptance.LastNameWins | include/common/serialization/details/assembler_specializations/maps.hh:212-231 | a name then has what the last slot with that name holds |
| Acceptance.OtherNamesStay | include/common/serialization/details/assembler_specializations/maps.hh:212-231 | names that no slot has keep what they had |
| Acceptance.NamesAscend | components/serialization/extensions/json/src/json_struct_deserializer.cc:52-61 | the names of an object are visited in ascending order |
| Acceptance.PrecedesMeans | components/serialization/extensions/json/src/json_struct_deserializer.cc:52-61 | ascending means lexicographic: a prefix first, else the smaller first differing character |
| Decoder.DecodeElementFrom | include/common/serialization/details/assembler_specializations/optional.hh:47-69 | a member is decoded as OptionalMember, LeafMemberIff, AbsentMember and the container results say, for every tree, well-formed or not, on which decoding ends |
| Decoder.DecodeItemFrom | include/common/serialization/details/assembler_specializations/optional.hh:71-94 | an item is decoded and the cursor left as specified for every tree, error paths included |
| Decoder.DecodeListFrom | include/common/serialization/details/assembler_specializations/list_or_vector.hh:86-101 | the loop decodes as specified wherever it ends |
| Decoder.DecodeMapFrom | include/common/serialization/details/assembler_specializations/maps.hh:116-135 | the loop assigns decoded entries to a map that is not cleared, as specified wherever it ends |
| Decoder.DecodeStringMapFrom | include/common/serialization/details/assembler_specializations/maps.hh:212-231 | the loop assigns every stored name as specified wherever it ends |
| Decoder.DecodeMembersFrom | include/common/serialization/object_assembler.hh:165-172 | the member loop decodes in order of definition and stops at the first exception |
| PartialMembers.PutChosenFrame | include/common/serialization/object_assembler.hh:423-446 | partial serialization leaves every name that was not chosen as it was, and throws on pointers that are not members |
| PartialMembers.FoundIff | include/common/serialization/object_assembler.hh:423-446 | members declared with `define` and `defineAs` are found, those of an ancestor are not |
| PartialMembers.ChosenEncodeIff | include/common/serialization/object_assembler.hh:423-446 | partial serialization succeeds if and only if every pointer is known and every enumeration value in the chosen fields has a name |
| PartialMembers.UnknownPointerThrows | include/common/serialization/object_assembler.hh:448-477 | partial deserialization throws at the first unknown pointer whose predecessors can be read |
| Overwriting.MembersOverNothing | include/common/serialization/object_assembler.hh:165-172 | decoding over nothing is decoding into a fresh object, for every tree |
| Overwriting.MergedMapLooksUp | include/common/serialization/details/assembler_specializations/maps.hh:116-135 | after a general map is read over another, a key has its stored value where the stored map has the key and its old value elsewhere |
| Overwriting.StructRoundTripOver | include/common/serialization/object_assembler.hh:165-172 | a struct read into an object with content becomes the merge of both, which equals what was written if and only if every key of the old general maps, through structs and tuples, was written too |
| Overwriting.MergeTwice | include/common/serialization/details/assembler_specializations/maps.hh:116-135 | reading the same thing over the result changes nothing more |
| Overwriting.MapKeepsOldEntries | include/common/serialization/details/assembler_specializations/maps.hh:116-135 | `{1: true}` read over `{5: false}` leaves both entries |
| Overwriting.DecodeMembersOverFrom | include/common/serialization/object_assembler.hh:165-172 | the member loop decodes each member over the content of its field, for every tree on which it ends |
| Overwriting.DecodeTupleOverFrom | include/common/serialization/details/assembler_specializations/tuple.hh:69-84 | the index recursion decodes each position over its old content |
| PartialMembers.PartialRoundTrip | include/common/serialization/object_assembler.hh:423-477 | partial serialization stores only chosen names; partial deserialization merges the chosen members into their fields, any other unchanged, and a chosen member is restored if and only if its old maps have no keys of their own |
| PartialMembers.PartialSerialize | include/common/serialization/object_assembler.hh:423-446 | the recursion over pointers writes the chosen members in place |
| PartialMembers.Target.PartialDeserialize | include/common/serialization/object_assembler.hh:448-477 | the recursion over pointers decodes into the chosen fields; after a failure the members before the failing one are decoded and all others unchanged |
| PartialMembers.Target.Deserialize | include/common/serialization/object_assembler.hh:165-172 | the member loop decodes into the object's own fields; after a failure earlier members are decoded and later ones unchanged |
| Migration.VersionOrder | include/common/migration/migration_task.hh:73-98 | version comparison is a total order up to minor and build, with `<=` the negation of the reversed `<` |
| Migration.VersionMeans | include/common/migration/migration_task.hh:73-98 | the generation decides before the major number; minor and build play no part |
| Migration.InsertKeepsSorted | components/migration/src/migration_manager.cc:29-37 | inserting keeps the tasks ordered and adds exactly one |
| Migration.InsertPosition | components/migration/src/migration_manager.cc:29-37 | a task goes behind those of its own version and before every later one |
| Migration.UpperBound | components/migration/src/migration_manager.cc:151-152 | halving finds the first task above a version |
| Migration.LowerBoundInReverse | components/migration/src/migration_manager.cc:137-138 | halving in reverse order finds how many tasks lie above a version |
| Migration.SelectTasks | components/migration/src/migration_manager.cc:132-163 | the changeset is the ascending tasks in (current, next] or the descending tasks in [next, current] |
| Migration.ChangesetIsSlice | components/migration/src/migration_manager.cc:132-163 | the changeset is a slice of the ordered tasks: those in (current, next] as they are, or those in [next, current] in reverse |
| Migration.CheckoutPasses | components/migration/src/migration_manager.cc:165-193 | a checkout passes a selected task only if it has no function for the action or its callback returns true, and stops at the first that returns false or throws; it logs the tasks passed and stores the version of the last of them |
| Migration.NothingPassedIff | components/migration/src/migration_manager.cc:165-193 | a checkout leaves the stored version and the log as they were if and only if nothing is selected or the first selected task has a function that returns false or throws |
| Migration.StoredStaysBetween | components/migration/src/migration_manager.cc:165-193 | the stored version moves towards the target and never past it, whatever fails |
| Migration.UpwardRunLogsExactly | components/migration/src/migration_manager.cc:111-194 | over every upward run with failures and retries the successful updates are exactly the tasks above the start up to the stored version, once each and in order |
| Migration.BetweenKeepsStrict | components/migration/src/migration_manager.cc:149-163 | with distinct versions the selected tasks are in strictly ascending order |
| Migration.LogsExactlyIffRetryable | components/migration/src/migration_manager.cc:165-193 | upward checkouts log exactly the tasks up to the stored version, whatever fails, if and only if of tasks sharing a version only the first can fail |
| Migration.EqualVersionsAreSkipped | components/migration/src/migration_manager.cc:165-193 | of two tasks with one version the second, having failed, is never retried |
| MigrationRollback.UndoesExactlyIffRetryable | components/migration/src/migration_manager.cc:165-193 | downward checkouts change nothing or undo exactly the tasks from the old stored version down to the new one, whatever fails, if and only if of tasks sharing a version only the first to be undone can fail |
| MigrationRollback.DownwardRunUndoes | components/migration/src/migration_manager.cc:111-194 | over every downward run with failures and retries the tasks undone are those from the starting version down to the stored one |
| MigrationRollback.UpdateRestoresIffNothingUndone | components/migration/src/migration_manager.cc:137-193 | the stored version becomes that of the last task passed downwards, so no update, to whatever target, redoes all of them unless none was passed |
| MigrationRollback.UpdateBackSkipsStored | components/migration/src/migration_manager.cc:137-193 | an update back that succeeds redoes in order what was undone, except the tasks of the version stored |
| MigrationRollback.RollbacksRepeatIffBothUndo | components/migration/src/migration_manager.cc:137-193 | two downward checkouts in a row pass a task twice if and only if each passes one: that of the stored version, whose rollback, if it has one, runs again |
| MigrationRollback.RollbackUndoesTarget | components/migration/src/migration_manager.cc:137-147 | an instance: rolling back from 2 to 1 undoes task 1 too, and updating again does not repeat it |
| MigrationRollback.FailedRollbackRepeats | components/migration/src/migration_manager.cc:165-193 | an instance: a rollback from 2 whose second callback fails stores 2 with task 2 undone, and a retry undoes it again |
| Migration.Manager.AddTask | components/migration/src/migration_manager.cc:29-49 | null tasks and empty function pairs are refused without change; any other task goes behind those of its own version |
| Migration.Manager.LatestVersion | components/migration/src/migration_manager.cc:79-87 | the greatest version of all tasks, or an error without tasks |
| Migration.Manager.Checkout | components/migration/src/migration_manager.cc:111-194 | the stored and returned version and the log are those of the selected tasks before the first whose callback does not return true, be it false or an exception; without callbacks nothing happens |
| PacketBuffer.RunsConserve | components/stdutils/src/packet_buffer.cc:19-67 | in every interleaving, any packet given back at any time included, the byte count is the stored size, delivered plus stored packets are the accepted ones in order, and the size stays within the highest limit |
| PacketBuffer.RollBackUndoesPop | components/stdutils/src/packet_buffer.cc:33-67 | a packet rolled back at once restores the buffer if and only if the limit still admits what was stored |
| PacketBuffer.Buffer.Push | components/stdutils/src/packet_buffer.cc:19-31 | puts the packet behind all others exactly when the size stays within the limit, and otherwise changes nothing |
| PacketBuffer.Buffer.Pop | components/stdutils/src/packet_buffer.cc:33-51 | delivers the front packet and leaves the rest in order, or reports an empty queue |
| PacketBuffer.Buffer.RollBack | components/stdutils/src/packet_buffer.cc:53-67 | puts any packet in front exactly when the limit admits it; the packet delivered last is thereby no longer delivered, any other counts as newly accepted |
| Paths.JoinAfterSplit | components/system/src/fsutils.cc:88-212 | appending the base name to the directory name gives a path back if and only if it ends in a name after a single slash, or is the root or empty |
| Paths.SplitAfterJoin | components/system/src/fsutils.cc:88-212 | appending a slash-free name and splitting gives both parts back if and only if the directory does not end in a stray slash |
| Paths.AppendSlashes | components/system/src/fsutils.cc:88-130 | leading slashes of what is appended are dropped, but for one where there was nothing before; slashes alone leave one at the end, and nothing appended changes nothing |
| Paths.TrailingSlashes | components/system/src/fsutils.cc:155-212 | one trailing slash makes no difference to directory and base name, a second one does |
| Paths.DirnameShortens | components/system/src/fsutils.cc:188-212 | the directory name is strictly shorter for every path but the root and the empty path |
| Directories.ComponentsSplit | components/system/src/fsutils.cc:188-212 | a path has the components of its directory name and its base name, or the same components when it ends in two slashes |
| Directories.ClimbIsChain | components/system/src/fsutils.cc:263-287 | the paths put on the stack are missing, each the directory name of the one before, and the climb succeeds if and only if it ends at a directory or the empty path |
| Directories.StatIn | components/system/src/fsutils.cc:263-287 | in the model a path that ends in a proper name is missing, an entry or an error depending on its directory and a trailing slash |
| Directories.DotEntries | components/system/src/fsutils.cc:263-287 | in the model `.` and `..` lead to the directory and its parent, the root being its own |
| Directories.ClimbUp | components/system/src/fsutils.cc:263-287 | the first loop ends and finds exactly those paths |
| Directories.CanMakeIn | components/system/src/fsutils.cc:288-297 | below an existing directory `mkdir` succeeds exactly on a base name that is not empty, `.` or `..`, free and permitted |
| Directories.MakesAllIffGood | components/system/src/fsutils.cc:288-297 | making the stack from its top on succeeds if and only if every path has such a base name and is permitted; otherwise exactly the directories above the first bad path are made |
| Directories.MakeDown | components/system/src/fsutils.cc:288-297 | the second loop makes directories from the top of the stack down, until one cannot be made |
| Directories.Mkdirs | components/system/src/fsutils.cc:258-299 | succeeds exactly when the climb ends at a directory and every stacked path has a proper base name and is permitted; the path then denotes a directory, and nothing but the missing directories was made |
| Directories.SpellingFails | components/system/src/fsutils.cc:288-297 | a missing path that ends in two slashes, `.` or `..` is never made, wherever it is permitted |
| Directories.DoubleSlashFails | components/system/src/fsutils.cc:258-299 | where `name` is missing from the working directory and may be made, `name//` puts both on the stack, makes the directory and nothing else, and fails |

## Left out

- CronTheorems.FoundIsSound: one direction only, for all rules. `CronEveryDay.SoundIff` gives the exact condition for every weekday and year and day ranges that start by the 28th, `FoundMatchesIffAligned` for a single run of any rules. With restricted weekdays or later days it also depends on the calendar whether the moment that would break the rule exists.
- CronTheorems.HaltsIffMatchExists: only for year rules that end before 2099. Where the years reach 2099 the search ends if an instant matches (`HaltsIfMatchExists`), and for aligned rules with every year and a safe last one in any case (`TotalForEveryYearRules`). What is left are rules with one or two dates, the last of which is not a real date in 2099, and misaligned or stepped years; there it may also run for ever, as in `NeverHaltsOnImpossibleDate`, depending on the weekdays up to 2099.
- CronQueue.Cron.Worker: for every job it reschedules, the search must end with an instant. When `calcNext` throws in the worker, the source removes the job from the list it is iterating over, which is not modelled.
- CronRules.MakeField: starts after number parsing; a step of 0 is excluded because the remainder is then undefined. Rule text, `std::stoi` and the weekday expression are not modelled.
- Decoder.DecodeListFrom: stated for inputs on which the source's loop ends; `ListProgress` says on which it does not.
- Overwriting.DecodeMembersOverFrom: what a decoder leaves in a field when it throws is not described; a field whose old content has another shape counts as empty, and fresh objects have empty maps, whatever their default initialisers put there.
- PartialMembers.Target.PartialDeserialize: the field of the member that fails may hold anything.
- Encoder.EncodeElementInto: when an enumeration value has no name, what was written before the exception is not described.
- Directories.Mkdirs: a file system without symbolic links, whose root and working directory exist; permissions are the set of places where `mkdir` is permitted, and a node may be one that `stat` cannot read.
- Time zones and daylight saving: local time is UTC, and a clock reading is given as civil time and second.
- Integer width: dates, ids, timestamps and byte counts are unbounded; the widths of serialized integers are modelled.
- Floating point: serialized numbers are exact reals, conversion to `float` and the text of a number are not modelled.
- JSON text: its only effect in the model is that non-negative signed numbers are parsed as unsigned.
- Map order: a map is the list of its entries in iteration order, and decoding a map lists entries in order of first assignment; the sorted or hashed order of the container after decoding is not modelled, and equality after a merge ignores it.
- Struct reader insertion: `value(name)` inserts null for a missing name into its own copy; every decoder that does so throws, and a null member counts as absent, so the insertion is not modelled.
- Member pointers: a pointer is the position of its field; two members of one struct that share a field are not modelled, and conversions are total functions.
- The XML back end, HTTP, D-Bus, services, logging, settings and command-line parsing.
- `Manager::checkout()` without a target, `clear` and the list of versions: they call or read what is modelled.
- TimeProvider waiting, threads and locks: each locked section is one step.
- `string_split`, `graph()`, `parent`, `extension` and version increments: straight-line string and field operations on which nothing modelled here depends.
