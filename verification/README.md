# Attestation library model

A model of the parts of the quote verification library that compute something
intricate, with proofs of what they are for. `dafny verify dfyconfig.toml`
checks everything.

| files | what they model |
|---|---|
| `Wrappers` | the option type |
| `Gregorian`, `CInt` | the calendar in closed form, and C's integer ranges and division: the reference that the code is proved against |
| `GMTime`, `MkTime` | `timesub` and `gmtime`; `time2sub`, its normalisation and its binary search over all of `time_t`; `mktime` |
| `TimeStrings` | reading timestamps, and what `isValidTimeString` accepts |
| `Cycles`, `ArgBlocks` | the block exchange of `permute_args`, and the arithmetic of its cycles |
| `Getopt`, `GetoptForms` | `getopt_internal` and `parse_long_options` in permuting mode, over a whole run; what each form of option reports |
| `ArgParse` | `arg_parse_untagged` and `arg_register_error` |
| `ByteOperands`, `Layout` | little-endian words and the cursors that read them |
| `QuoteStructures`, `AuthData`, `Quote` | the report kinds, the authentication data of versions 3 to 5, and the quote around them |
| `CertificateChain` | splitting a PEM chain; choosing the root and the topmost certificate |
| `JsonDepth` | the nesting limit on JSON values |
| `TcbLevels` | the order of TCB levels, their insertion, and the selection by SVN |
| `Collateral` | collecting collateral and writing it at fixed offsets |

Code that updates state is a class or a method with loops; what such a method
does is stated by a function of its inputs or its old state, and the properties
are lemmas about these functions. A method that is long in the source is divided
where it changes from one job to the next.

## How the parts fit

- Time: `Gregorian.GmFields` is defined by floor division and proved to be the
  only inverse of the "Seconds Since the Epoch" formula. `GMTime.TimeSub`
  computes it and says exactly when it cannot. `MkTime.Search` uses it as its
  oracle, so the search ends at the one second that has the fields it looks for.
- Arguments: `Getopt.Scan` says what a run does to the original arguments, one
  argument at a time and with no permutation. `Getopt.Scanner.Run` is proved to
  report exactly its events and to leave the arguments in the order it gives.
  `GetoptForms` states what `Scan` reports for each form of option as it stands on
  a command line.
- Quotes: each structure has its byte form, its reader and the two round trips;
  `QuoteFormat.Quote.Parse` succeeds exactly on the format built from them.
  `AcceptedByOffsets`, `GivenByOffsets` and `ValidByOffsets` state the same of the
  raw bytes alone, with every offset written out.

## Where the code differs from what is promised

- `mktime` compares second -1 with its target first, and `tmcomp` subtracts the
  years as ints. For the first 70 years that `tm_year` can name this is
  69 - `tm_year` beyond INT_MAX, although `gmtime` represents those years.
  `MkTime.Search` shows that no other comparison overflows and that this one does
  exactly there; `OverflowExample` gives an input. `ExactIsCorrect` covers every
  run without such an overflow, and `CorrectFromFirstExactYear` needs only the
  year to be past them.
- On mathematical integers there is one more difference, inside those years: a
  first attempt that finds the second but cannot convert it back leaves the full
  year in `tm_year`, and the second attempt reads it as an offset from 1900.
  `AnswerCorrect` and `MisreadExample` describe this; `MisreadIsLong` shows that
  in C every such input has overflowed before.
- In `parse_long_options` an exact match is meant to win, but the loop stops at
  the second longer name that begins with the argument, so an exact match behind
  two such names is reported as ambiguous. `Getopt.FullNameFound` gives the
  condition, `FullNameMissed` a table.
- `splitChain` undoes concatenation unless a body reads "END CERTIFICATE": with
  the dashes of the begin marker it then completes an end marker too early.
  `CertificateChain.SplitUndoesPemJoin` is an equivalence.
- The digit reader takes any character by its distance from `0`, so `0:` is read
  as 10 (`TimeStrings.ColonReadAsTen`, `ColonExample`), and text behind the first
  20 characters is ignored. The one timestamp whose second is -1 is taken for a failure.
- The JSON depth limit 0 still admits scalars and empty containers
  (`JsonDepth.IsWithinJsonDepthLimit`).

## Model

| member | source | states |
|---|---|---|
| Gregorian.NextYear | Src/AttestationCommons/src/Utils/GMTime.cpp:171-176 | the closed-form day count (floored leap terms) grows by 366 exactly after leap years, for all integers |
| Gregorian.MonthStartClosed | Src/AttestationCommons/src/Utils/GMTime.cpp:151-154 | the start of each month in closed form, (367 m - 362) / 12 less what February lacks, and the length of each month by number |
| CInt.TruncDivTowardZero | Src/AttestationCommons/src/Utils/GMTime.cpp:217-218 | the quotient and remainder of C: the remainder is smaller than the divisor and has the sign of the dividend |
| Gregorian.EpochSecondsByDays | Src/AttestationCommons/src/Utils/GMTime.cpp:201-305 | the "Seconds Since the Epoch" formula of section 4.16 of IEEE Std 1003.1-2017, with floored divisions, equals whole days before the year plus the clock time |
| Gregorian.GmFieldsCorrect | Src/AttestationCommons/src/Utils/GMTime.cpp:201-305 | for every integer second the reference date is in calendar range and its closed-form second count is that second |
| Gregorian.GmFieldsUnique | Src/AttestationCommons/src/Utils/GMTime.cpp:201-305 | it is the only such date: any date in calendar range is the reference date of its own second |
| GMTime.LeapsThruEndOfIsFloored | Src/AttestationCommons/src/Utils/GMTime.cpp:171-176 | the reflected definition equals y/4 - y/100 + y/400 with floored division on all integers |
| GMTime.IncrementOverflow | Src/AttestationCommons/src/Utils/GMTime.cpp:183-198 | overflow is reported exactly when the sum is no int, and then the value is unchanged |
| GMTime.GuessNeverOvershoots | Src/AttestationCommons/src/Utils/GMTime.cpp:219-239 | a year guess moves strictly toward the year of the day and never past it |
| GMTime.HugeExcess | Src/AttestationCommons/src/Utils/GMTime.cpp:225-227 | an excess too large for an int proves that the year itself is outside the int range |
| GMTime.GuessYear | Src/AttestationCommons/src/Utils/GMTime.cpp:216-239 | the guess loop ends with the year of the day and the days left in it, and fails exactly when that year is no int |
| GMTime.TruncatedDay | Src/AttestationCommons/src/Utils/GMTime.cpp:217-218 | the truncating division of a negative second count never makes the year leave the int range early |
| GMTime.Settle | Src/AttestationCommons/src/Utils/GMTime.cpp:254-271 | the carry loops bring second, day and year into range for the same instant, and fail exactly when the year is no int |
| GMTime.Weekday | Src/AttestationCommons/src/Utils/GMTime.cpp:279-287 | the piecewise weekday formula is the day count plus 4 modulo 7, before 1970 too |
| GMTime.MonthAndDay | Src/AttestationCommons/src/Utils/GMTime.cpp:296-299 | the month walk finds the month that holds the day of the year |
| GMTime.WriteFields | Src/AttestationCommons/src/Utils/GMTime.cpp:272-304 | writes the reference date, or, when year - 1900 is no int, leaves the full year in tm_year |
| GMTime.TimeSub | Src/AttestationCommons/src/Utils/GMTime.cpp:201-305 | with offset 0 succeeds exactly when the year is at most INT_MAX and year - 1900 at least INT_MIN; success writes the reference date of t + offset, failure at most tm_year |
| MkTime.TmCompIsTimeOrder | Src/AttestationCommons/src/Utils/GMTime.cpp:387-399 | tmcomp is negative, zero or positive exactly as the two instants compare, on all in-range fields |
| MkTime.NormalizeOverflow | Src/AttestationCommons/src/Utils/GMTime.cpp:363-373 | carries the floored quotient out of the units, keeps the remainder, and flags exactly the carries that do not fit |
| MkTime.LongIncrementOverflow | Src/AttestationCommons/src/Utils/GMTime.cpp:352-361 | the guard with the bounds of a 32-bit long |
| MkTime.Anniversary | Src/AttestationCommons/src/Utils/GMTime.cpp:436-447 | a month of one year and the same month of the next are apart by the length of year y + (1 < mon), the source's li |
| MkTime.RaiseDay | Src/AttestationCommons/src/Utils/GMTime.cpp:436-441 | the loop on mday <= 0 keeps the day number and fails only when the year is at or below INT_MIN |
| MkTime.LowerDay | Src/AttestationCommons/src/Utils/GMTime.cpp:442-447 | the loop on mday > 366 keeps the day number and fails only when the year exceeds INT_MAX |
| MkTime.WalkMonths | Src/AttestationCommons/src/Utils/GMTime.cpp:448-458 | the month walk keeps the day number and ends with the day inside its month |
| MkTime.NormalizeDay | Src/AttestationCommons/src/Utils/GMTime.cpp:436-463 | all three loops and the return to year - 1900: succeeds exactly when the year and its offset are ints |
| MkTime.Carry | Src/AttestationCommons/src/Utils/GMTime.cpp:417-435 | the carries succeed exactly when every carried field fits, and give the floored remainders |
| MkTime.CarriesKeepInstant | Src/AttestationCommons/src/Utils/GMTime.cpp:417-435 | the carried fields name the same instant |
| MkTime.Normalize | Src/AttestationCommons/src/Utils/GMTime.cpp:417-463 | succeeds exactly on normalisable fields, ends in calendar range, and keeps the instant, for any int fields |
| MkTime.SaveSeconds | Src/AttestationCommons/src/Utils/GMTime.cpp:464-483 | the three cases for the saved seconds: seconds in range for the search, and sec + saved unchanged |
| MkTime.SearchTarget | Src/AttestationCommons/src/Utils/GMTime.cpp:487-490 | the second sought is representable and inside the starting interval |
| MkTime.TooExtreme | Src/AttestationCommons/src/Utils/GMTime.cpp:499-504 | a NULL from gmtime lies beyond the target on its own side of zero |
| MkTime.Probe | Src/AttestationCommons/src/Utils/GMTime.cpp:491-508 | the sign of dir, with the year difference as a mathematical integer, tells on which side of the target the probe lies, also when gmtime answers NULL; and whether an int holds that difference |
| MkTime.FirstProbe | Src/AttestationCommons/src/Utils/GMTime.cpp:491-506 | the first comparison, of tm_year 69 with the target's, fits an int exactly when the target's tm_year is at least INT_MIN + 70 |
| MkTime.NearIsExact | Src/AttestationCommons/src/Utils/GMTime.cpp:506 | seconds at most 2^55 apart are in years that an int can subtract |
| MkTime.FarIsNull | Src/AttestationCommons/src/Utils/GMTime.cpp:497-504 | gmtime has no answer from 2^56 seconds on |
| MkTime.RepresentableRange | Src/AttestationCommons/src/Utils/GMTime.cpp:201-305 | in figures: gmtime represents exactly the seconds from -67768040609740800 to 67767976233532799 |
| MkTime.MiddleOfHalved | Src/AttestationCommons/src/Utils/GMTime.cpp:491-527 | behind the first probe the interval is halved without an answer down to 2^56 and then is at most 2^55 wide, so that no later comparison overflows |
| MkTime.Search | Src/AttestationCommons/src/Utils/GMTime.cpp:487-530 | the bisection ends without the disabled lo > hi exit and returns the one second whose fields are the target, because the interval shrinks and keeps the target; every year difference it hands to tmcomp is an int if and only if the target's tm_year is at least INT_MIN + 70 |
| MkTime.Locate | Src/AttestationCommons/src/Utils/GMTime.cpp:401-535 | succeeds exactly under the stated guards and then returns the instant of the input fields; no comparison overflows exactly when the normalised year is at least INT_MIN + 1970 |
| MkTime.Time2Sub | Src/AttestationCommons/src/Utils/GMTime.cpp:401-539 | result, okay flag, written-back fields and overflow of the search for every input, including the failed conversion that overwrites tm_year |
| MkTime.Time2 | Src/AttestationCommons/src/Utils/GMTime.cpp:541-554 | both attempts together give the answer function and the fields left behind, and the correct answer whenever no comparison overflows |
| MkTime.Mktime | Src/AttestationCommons/src/Utils/GMTime.cpp:556-580 | sgxssl_mktime: -1 on NULL, else the answer and the fields left behind for every input; the correct answer whenever no comparison overflows |
| MkTime.SecondsBackFromYear | Src/AttestationCommons/src/Utils/GMTime.cpp:464-483 | tm_sec reaches back at most 69 years, so from the year INT_MIN + 1970 on a failed first attempt leaves tm_year alone |
| MkTime.CorrectFromFirstExactYear | Src/AttestationCommons/src/Utils/GMTime.cpp:541-580 | without exception from the normalised year INT_MIN + 1970 on: mktime answers the instant, or -1 when none can be given |
| MkTime.ExactIsCorrect | Src/AttestationCommons/src/Utils/GMTime.cpp:541-580 | the same whenever no comparison of either attempt overflows |
| MkTime.OverflowExample | Src/AttestationCommons/src/Utils/GMTime.cpp:387-399 | 1 January of tm_year INT_MIN is in range and representable, but the first comparison is 69 - INT_MIN |
| MkTime.AnswerCorrect | Src/AttestationCommons/src/Utils/GMTime.cpp:541-580 | on mathematical integers, mktime answers the instant, or -1 when none can be given, if and only if the time is not misread by the second attempt |
| MkTime.MisreadIsLong | Src/AttestationCommons/src/Utils/GMTime.cpp:541-554 | a misread time comes back as a wrong second, never as the failure marker; and the first comparison of its search overflows an int, so no run in C takes this course without an overflow |
| MkTime.MisreadExample | Src/AttestationCommons/src/Utils/GMTime.cpp:541-554 | on mathematical integers, tm_year INT_MIN, 1 January, second -1 is misread: the answer is 1899 years late |
| MkTime.InRangeConvertible | Src/AttestationCommons/src/Utils/GMTime.cpp:401-580 | every in-range date whose year fits is converted to its instant |
| MkTime.OrdinaryConvertible | Src/AttestationCommons/src/Utils/GMTime.cpp:401-580 | fields of any size up to 10^9, in or out of range, are carried: mktime answers the instant, and no comparison overflows |
| MkTime.MktimeOfGmtime | Src/AttestationCommons/src/Utils/GMTime.cpp:307-321 | mktime(gmtime(t)) = t for every t that gmtime can represent, and no comparison overflows exactly from the year INT_MIN + 1970 on |
| MkTime.GmtimeOfMktime | Src/AttestationCommons/src/Utils/GMTime.cpp:574-580 | gmtime(mktime(f)) = f for every date in calendar range that fits, and no comparison overflows exactly from tm_year INT_MIN + 70 on |
| MkTime.GmtimeKeepsOrder | Src/AttestationCommons/src/Utils/GMTime.cpp:387-399 | tmcomp on two converted times compares the seconds they came from |
| MkTime.NormalFormIsFixed | Src/AttestationCommons/src/Utils/GMTime.cpp:401-580 | what mktime writes back names the same instant, is in calendar range and is a fixed point |
| TimeStrings.StringToNum | Src/AttestationCommons/src/Utils/TimeUtils.cpp:206-214 | the modulo-2^32 accumulation, read back as an int, is the decimal value of the characters' distances from 0 |
| TimeStrings.ReadFields | Src/AttestationCommons/src/Utils/TimeUtils.cpp:226-301 | accepts exactly the strings with the five separators, Z and fields in the loose ranges, and stores the fields |
| TimeStrings.LooseDateConvertible | Src/AttestationCommons/src/Utils/TimeUtils.cpp:313-316 | every time that passes the loose ranges is convertible, and no comparison overflows |
| TimeStrings.UnchangedMeansReal | Src/AttestationCommons/src/Utils/TimeUtils.cpp:318-327 | mktime leaves the six fields alone exactly when the day exists in its month |
| TimeStrings.StringToTime | Src/AttestationCommons/src/Utils/TimeUtils.cpp:226-330 | returns the instant of an accepted string and -1 otherwise; a success leaves the date of the result in datetime |
| TimeStrings.IsValidTimeString | Src/AttestationCommons/src/Utils/TimeUtils.cpp:342-351 | true exactly when the result is not -1 |
| TimeStrings.GetTimeFromString | Src/AttestationCommons/src/Utils/TimeUtils.cpp:353-364 | the date of the result, or all zeros |
| TimeStrings.ReadOfRender | Src/AttestationCommons/src/Utils/TimeUtils.cpp:226-330 | a date written in the form of section 5.6 of RFC 3339 is read back as its "Seconds Since the Epoch", whatever follows it |
| TimeStrings.OctoberFifth | Src/AttestationCommons/src/Utils/TimeUtils.cpp:226-330 | the written form of second 1696464000 is "2023-10-05T00:00:00Z", a Thursday and day 277 of its year |
| TimeStrings.AcceptedIsRendered | Src/AttestationCommons/src/Utils/TimeUtils.cpp:226-330 | an accepted string is the written form of its own time if and only if its numeric places hold digits |
| TimeStrings.AcceptsExactlyTimestamps | Src/AttestationCommons/src/Utils/TimeUtils.cpp:342-351 | 20-character strings with digits are valid exactly when they write a real timestamp from 1900 on whose second is not -1 |
| TimeStrings.ColonReadAsTen | Src/AttestationCommons/src/Utils/TimeUtils.cpp:206-214 | digits are not checked: an accepted October date with "10" replaced by "0:" is accepted with the same result |
| TimeStrings.ColonExample | Src/AttestationCommons/src/Utils/TimeUtils.cpp:206-214 | "2023-0:-05T00:00:00Z" is accepted as the fifth of October 2023 |
| TimeStrings.StringOrderIsTimeOrder | Src/AttestationCommons/src/Utils/TimeUtils.cpp:226-330 | on accepted digit strings alphabetical order is the order of the results |
| Cycles.Bezout | Src/ThirdParty/argtable3/argtable3.c:417-430 | Euclid's result divides both numbers and is a combination of them |
| Cycles.PosInjective | Src/ThirdParty/argtable3/argtable3.c:437-467 | two walks of the cycles meet only at the same start and the same step |
| Cycles.PosSurjective | Src/ThirdParty/argtable3/argtable3.c:437-467 | every position is on one of the gcd-many cycles, within cycle length steps |
| Cycles.WhereNext | Src/ThirdParty/argtable3/argtable3.c:452-459 | one step of the inner loop moves to the next place of the same cycle |
| ArgBlocks.ComputeGcd | Src/ThirdParty/argtable3/argtable3.c:417-430 | the loop computes the greatest common divisor function |
| ArgBlocks.CyclesExchange | Src/ThirdParty/argtable3/argtable3.c:437-467 | the gcd-many cycles of swaps turn the two blocks around |
| ArgBlocks.RunCycle | Src/ThirdParty/argtable3/argtable3.c:453-465 | the inner loop on the array does the steps of one cycle and touches nothing outside the blocks |
| ArgBlocks.PermuteArgs | Src/ThirdParty/argtable3/argtable3.c:437-467 | in place: the second block, then the first, each in its own order, everything else untouched |
| Getopt.FindLong | Src/ThirdParty/argtable3/argtable3.c:494-522 | the loop over the table computes the match function |
| Getopt.FullNameFound | Src/ThirdParty/argtable3/argtable3.c:494-522 | a full name is found if and only if fewer than two longer names that it begins precede it; otherwise it is reported as ambiguous |
| Getopt.FullNameMissed | Src/ThirdParty/argtable3/argtable3.c:494-522 | with "abc" and "abd" in front of it the full name "ab" is reported as ambiguous |
| Getopt.AbbreviationFound | Src/ThirdParty/argtable3/argtable3.c:494-522 | an abbreviation is found exactly when it begins one name only |
| Getopt.LongStep | Src/ThirdParty/argtable3/argtable3.c:474-586 | a long option finishes one or two arguments and never reports the end of the options |
| Getopt.LongFound | Src/ThirdParty/argtable3/argtable3.c:523-585 | the same once the option is known; what it reports, on the command line, is stated by GetoptForms.LongWithValue and LongWithoutValue |
| Getopt.ShortStep | Src/ThirdParty/argtable3/argtable3.c:740-795 | a letter either shortens the current argument or finishes at most two arguments, and never reports the end |
| Getopt.ScanPartitions | Src/ThirdParty/argtable3/argtable3.c:592-796 | options with values and non-options split the scanned arguments by one labelling, each side in its original order; the rest is the suffix |
| Getopt.ScanStopsAtDashes | Src/ThirdParty/argtable3/argtable3.c:663-715 | only non-options are passed over, and arguments are left over only behind "--" |
| Getopt.ScanPermutes | Src/ThirdParty/argtable3/argtable3.c:592-796 | the final arrangement has the same arguments as the start, as a multiset |
| Getopt.TrackPermutes | Src/ThirdParty/argtable3/argtable3.c:592-796 | at every point of a run the vector is a permutation of the one at the start |
| Getopt.Scanner.constructor | Src/ThirdParty/argtable3/argtable3.c:632-641 | the state before a first call with optind 0 |
| Getopt.Scanner.ParseLongOptions | Src/ThirdParty/argtable3/argtable3.c:474-586 | all outputs of one long option on the state |
| Getopt.Scanner.TakeLong | Src/ThirdParty/argtable3/argtable3.c:523-585 | all outputs from the point where the option is known: they are those of the function whose reports the GetoptForms lemmas state |
| Getopt.Scanner.TakeOption | Src/ThirdParty/argtable3/argtable3.c:724-796 | all outputs of one option on optind, place, optarg, optopt and the flag, for every unread rest of an option argument |
| Getopt.Scanner.Skip | Src/ThirdParty/argtable3/argtable3.c:663-694 | a non-option joins the block, which first moves behind newer options, keeping the run on track |
| Getopt.Scanner.FindOption | Src/ThirdParty/argtable3/argtable3.c:642-715 | either stops at an option argument with the run on track, or ends the run in its promised final state |
| Getopt.Scanner.Reach | Src/ThirdParty/argtable3/argtable3.c:695-715 | an option argument ends the block; "--" ends the run in its promised final state |
| Getopt.Scanner.Settle | Src/ThirdParty/argtable3/argtable3.c:645-662 | the end of a run: one exchange brings the arguments to the promised arrangement and optind to the first non-option |
| Getopt.Scanner.Take | Src/ThirdParty/argtable3/argtable3.c:724-796 | one option consumed: the run stays on track, the call reports exactly the event, and optind goes up or place gets shorter |
| Getopt.Scanner.Getopt | Src/ThirdParty/argtable3/argtable3.c:592-796 | each call either reports the next event, moving on in optind or place, or returns -1 with the final arrangement and optind at the first non-option; argv is a permutation of its start after either |
| Getopt.Scanner.Permuted | Src/ThirdParty/argtable3/argtable3.c:592-796 | the state between calls and the final state both imply that argv is a permutation of its start |
| Getopt.Scanner.Run | Src/ThirdParty/argtable3/argtable3.c:4092-4179 | the whole loop ends; what its caller can read after each call (code, optarg, optopt, stored flag value) is exactly what the events of a scan of the original arguments say, and argv is program name, options, non-options, rest |
| GetoptForms.NonOptionPassed | Src/ThirdParty/argtable3/argtable3.c:663-694 | an empty argument, one without a leading dash, and a lone "-" that is no option letter go to the non-options |
| GetoptForms.LoneDash | Src/ThirdParty/argtable3/argtable3.c:663-715 | a lone "-" that is an option letter is reported as that option |
| GetoptForms.DashesEnd | Src/ThirdParty/argtable3/argtable3.c:698-715 | "--" ends the options; what follows it is the rest |
| GetoptForms.DashedEntered | Src/ThirdParty/argtable3/argtable3.c:701 | any other argument with a leading dash is read from behind the dash |
| GetoptForms.LetterThenMore | Src/ThirdParty/argtable3/argtable3.c:774-776 | a letter without a value is reported and reading goes on in the same argument |
| GetoptForms.LetterAlone | Src/ThirdParty/argtable3/argtable3.c:774-793 | a last letter without a value, or with an optional one, finishes its argument |
| GetoptForms.LetterWithValue | Src/ThirdParty/argtable3/argtable3.c:777-793 | "-xvalue": the letter with the value "value", one argument |
| GetoptForms.LetterThenValue | Src/ThirdParty/argtable3/argtable3.c:777-793 | "-x" and the next argument as its value, two arguments to the options; or the complaint with the letter in optopt when there is none |
| GetoptForms.LetterUnknown | Src/ThirdParty/argtable3/argtable3.c:740-756 | an unknown letter or a colon: '?' with the letter in optopt |
| GetoptForms.LettersGrouped | Src/ThirdParty/argtable3/argtable3.c:740-795 | "-abc...": one event for each letter, in order, and then what the rest of the argument says |
| GetoptForms.NamesIsMatch | Src/ThirdParty/argtable3/argtable3.c:494-522 | a name is found exactly when it is a full name not behind two longer ones, or abbreviates one name only |
| GetoptForms.LongWithValue | Src/ThirdParty/argtable3/argtable3.c:487-490 | "--name=value": the value is what follows the first '=', one argument; an option without a value complains |
| GetoptForms.LongWithoutValue | Src/ThirdParty/argtable3/argtable3.c:523-585 | "--name": the next argument is the value of an option that must have one; a missing one complains; flags store their value and report 0 |
| GetoptForms.LongUnknown | Src/ThirdParty/argtable3/argtable3.c:514-577 | a name that stands for no option: '?' with 0 in optopt |
| GetoptForms.OneLongOption | Src/ThirdParty/argtable3/argtable3.c:592-796 | the whole run on "--name=value" alone: one event with the value, and that argument under the options |
| ArgParse.ArgEnd.Register | Src/ThirdParty/argtable3/argtable3.c:3847-3867 | the table holds the reports in order, and once full its last entry is the limit error; no count exceeds maxcount |
| ArgParse.ArgEnd.TableHolds | Src/ThirdParty/argtable3/argtable3.c:3847-3867 | the arrays hold the reports in order; with too many, the last place holds error 1, the end entry and no argument |
| ArgParse.FatesInOrder | Src/ThirdParty/argtable3/argtable3.c:4186-4270 | every argument has one fate; accepting entries never go back, after the first rejection all are rejected, and a rejection names its argument |
| ArgParse.AcceptedByFirst | Src/ThirdParty/argtable3/argtable3.c:4213-4239 | the next argument goes to the first entry from the current one on, without options and with a scan function, that accepts it; that entry stays current |
| ArgParse.RefusedByAll | Src/ThirdParty/argtable3/argtable3.c:4240-4269 | when all such entries refuse it, it is reported with the error of the last one asked, and all that follows with error 3 of the end entry |
| ArgParse.NoneAsked | Src/ThirdParty/argtable3/argtable3.c:4197-4269 | with no such entry left, the tentative error, if any, and error 3 for the rest |
| ArgParse.FirstRejection | Src/ThirdParty/argtable3/argtable3.c:4226-4252 | the first rejected argument was refused by every entry from the last accepting one on |
| ArgParse.LimitsKept | Src/ThirdParty/argtable3/argtable3.c:4226-4239 | if an entry's scan function rejects at its limit, no entry ends beyond its limit |
| ArgParse.Untagged.Offer | Src/ThirdParty/argtable3/argtable3.c:4197-4252 | one round of the loop keeps the distribution and advances exactly one of the two cursors |
| ArgParse.Untagged.HandOutAll | Src/ThirdParty/argtable3/argtable3.c:4197-4252 | the loop ends with the fates distributed and a tentative error only while its argument remains |
| ArgParse.Untagged.ReportRest | Src/ThirdParty/argtable3/argtable3.c:4254-4269 | the tentative error is reported first, then every other unused argument once |
| ArgParse.Untagged.ParseUntagged | Src/ThirdParty/argtable3/argtable3.c:4186-4270 | ends with optind >= argc; entries hold exactly the accepted arguments and the new reports are exactly the rejections, in order |
| ByteOperands.ReadIsLittleEndian16 | Src/AttestationLibrary/src/QuoteVerification/QuoteParsers.h:65-75 | swapBytes(toUint16(..)) of two bytes is their little-endian value |
| ByteOperands.ReadIsLittleEndian32 | Src/AttestationLibrary/src/QuoteVerification/QuoteParsers.h:79-91 | swapBytes(toUint32(..)) of four bytes is their little-endian value |
| ByteOperands.WriteIsLittleEndian16 | Src/AttestationCommons/src/Utils/ByteOperands.cpp:37-77 | toArray(swapBytes(v)) is the little-endian form of v |
| ByteOperands.WriteIsLittleEndian32 | Src/AttestationCommons/src/Utils/ByteOperands.cpp:42-86 | toArray(swapBytes(v)) is the little-endian form of v |
| Layout.ReadArray | Src/AttestationLibrary/src/QuoteVerification/QuoteParsers.h:52-62 | reads a fixed-size array exactly when enough bytes are left, else leaves the cursor |
| Layout.ReadUint16 | Src/AttestationLibrary/src/QuoteVerification/QuoteParsers.h:65-76 | reads a little-endian word exactly when two bytes are left, else leaves the cursor |
| Layout.ReadUint32 | Src/AttestationLibrary/src/QuoteVerification/QuoteParsers.h:79-91 | reads a little-endian word exactly when four bytes are left, else leaves the cursor |
| Layout.WordsByBytes | Src/AttestationLibrary/src/QuoteVerification/QuoteParsers.h:65-91 | the words read, byte by byte, the lowest first |
| QuoteStructures.InsertHeader | Src/AttestationLibrary/src/QuoteVerification/QuoteStructures.cpp:12-22 | succeeds exactly when 48 bytes are left, consumes them and stores them field by field |
| QuoteStructures.HeaderIn | Src/AttestationLibrary/src/QuoteVerification/QuoteStructures.cpp:12-22 | each field, by name, at its offset from the cursor |
| QuoteStructures.HeaderBytesOfAt | Src/AttestationLibrary/src/QuoteVerification/QuoteStructures.cpp:12-22 | writing what was read gives the bytes back |
| QuoteStructures.HeaderAtOfBytes | Src/AttestationLibrary/src/QuoteVerification/QuoteStructures.cpp:12-22 | reading what was written gives the fields back |
| QuoteStructures.InsertBody | Src/AttestationLibrary/src/QuoteVerification/QuoteStructures.cpp:24-29 | succeeds exactly when 6 bytes are left, consumes them and stores them field by field |
| QuoteStructures.BodyIn | Src/AttestationLibrary/src/QuoteVerification/QuoteStructures.cpp:24-29 | each field, by name, at its offset from the cursor |
| QuoteStructures.BodyBytesOfAt | Src/AttestationLibrary/src/QuoteVerification/QuoteStructures.cpp:24-29 | writing what was read gives the bytes back |
| QuoteStructures.BodyAtOfBytes | Src/AttestationLibrary/src/QuoteVerification/QuoteStructures.cpp:24-29 | reading what was written gives the fields back |
| QuoteStructures.InsertEnclaveReport | Src/AttestationLibrary/src/QuoteVerification/QuoteStructures.cpp:31-46 | succeeds exactly when 384 bytes are left, consumes them and stores them field by field |
| QuoteStructures.EnclaveReportIn | Src/AttestationLibrary/src/QuoteVerification/QuoteStructures.cpp:31-46 | each field, by name, at its offset from the cursor |
| QuoteStructures.RawBlobEnclaveReport | Src/AttestationLibrary/src/QuoteVerification/QuoteStructures.cpp:48-92 | writes the 384-byte form of the report through the moving iterator |
| QuoteStructures.EnclaveReportBytesOfAt | Src/AttestationLibrary/src/QuoteVerification/QuoteStructures.cpp:48-92 | rawBlob of an inserted report is the same 384 bytes |
| QuoteStructures.EnclaveReportAtOfBytes | Src/AttestationLibrary/src/QuoteVerification/QuoteStructures.cpp:48-92 | inserting a raw blob gives the report back |
| QuoteStructures.InsertTDReport10 | Src/AttestationLibrary/src/QuoteVerification/QuoteStructures.cpp:94-112 | succeeds exactly when 584 bytes are left, consumes them and stores them field by field |
| QuoteStructures.TDReport10In | Src/AttestationLibrary/src/QuoteVerification/QuoteStructures.cpp:94-112 | each field, by name, at its offset from the cursor |
| QuoteStructures.RawBlobTDReport10 | Src/AttestationLibrary/src/QuoteVerification/QuoteStructures.cpp:114-165 | writes the 584-byte form of the report through the moving iterator |
| QuoteStructures.TDReport10BytesOfAt | Src/AttestationLibrary/src/QuoteVerification/QuoteStructures.cpp:114-165 | rawBlob of an inserted report is the same 584 bytes |
| QuoteStructures.TDReport10AtOfBytes | Src/AttestationLibrary/src/QuoteVerification/QuoteStructures.cpp:114-165 | inserting a raw blob gives the report back |
| QuoteStructures.InsertTDReport15 | Src/AttestationLibrary/src/QuoteVerification/QuoteStructures.cpp:167-173 | succeeds exactly when 648 bytes are left, consumes them and stores them field by field |
| QuoteStructures.TDReport15In | Src/AttestationLibrary/src/QuoteVerification/QuoteStructures.cpp:167-173 | each field, by name, at its offset from the cursor |
| QuoteStructures.RawBlobTDReport15 | Src/AttestationLibrary/src/QuoteVerification/QuoteStructures.cpp:175-191 | writes the 648-byte form of the report through the moving iterator |
| QuoteStructures.TDReport15BytesOfAt | Src/AttestationLibrary/src/QuoteVerification/QuoteStructures.cpp:175-191 | rawBlob of an inserted report is the same 648 bytes |
| QuoteStructures.TDReport15AtOfBytes | Src/AttestationLibrary/src/QuoteVerification/QuoteStructures.cpp:175-191 | inserting a raw blob gives the report back |
| QuoteStructures.InsertTDReport15Ex | Src/AttestationLibrary/src/QuoteVerification/QuoteStructures.cpp:193-208 | succeeds exactly when 885 bytes are left, consumes them and stores them field by field |
| QuoteStructures.TDReport15ExIn | Src/AttestationLibrary/src/QuoteVerification/QuoteStructures.cpp:193-208 | each field, by name, at its offset from the cursor |
| QuoteStructures.RawBlobTDReport15Ex | Src/AttestationLibrary/src/QuoteVerification/QuoteStructures.cpp:210-251 | writes the 885-byte form of the report through the moving iterator |
| QuoteStructures.TDReport15ExBytesOfAt | Src/AttestationLibrary/src/QuoteVerification/QuoteStructures.cpp:210-251 | rawBlob of an inserted report is the same 885 bytes |
| QuoteStructures.TDReport15ExAtOfBytes | Src/AttestationLibrary/src/QuoteVerification/QuoteStructures.cpp:210-251 | inserting a raw blob gives the report back |
| AuthData.InsertQeAuthData | Src/AttestationLibrary/src/QuoteVerification/QuoteStructures.cpp:264-297 | accepts exactly a length field that covers the bytes up to the end; otherwise the cursor goes back |
| AuthData.QeAuthBytesOfAt | Src/AttestationLibrary/src/QuoteVerification/QuoteStructures.cpp:264-297 | parsedDataSize is the length of the data, and writing back gives the bytes |
| AuthData.QeAuthAtOfBytes | Src/AttestationLibrary/src/QuoteVerification/QuoteStructures.cpp:264-297 | reading written data gives it back |
| AuthData.InsertCertificationData | Src/AttestationLibrary/src/QuoteVerification/QuoteStructures.cpp:299-329 | accepts exactly a size field that covers the bytes up to the end; otherwise the cursor goes back |
| AuthData.CertBytesOfAt | Src/AttestationLibrary/src/QuoteVerification/QuoteStructures.cpp:299-329 | parsedDataSize is the length of the data, and writing back gives the bytes |
| AuthData.CertAtOfBytes | Src/AttestationLibrary/src/QuoteVerification/QuoteStructures.cpp:299-329 | reading written data gives it back |
| AuthData.LookUpCertificationData | Src/AttestationLibrary/src/QuoteVerification/QuoteStructures.cpp:357-375 | the look-ahead at the length and the step back leave the cursor where the sub-structure starts |
| AuthData.InsertTail | Src/AttestationLibrary/src/QuoteVerification/QuoteStructures.cpp:344-375 | authentication data, then certification data, each at the length it declares |
| AuthData.TailBytesOfAt | Src/AttestationLibrary/src/QuoteVerification/QuoteStructures.cpp:344-375 | the two parts written back are exactly the bytes consumed |
| AuthData.TailAtOfBytes | Src/AttestationLibrary/src/QuoteVerification/QuoteStructures.cpp:344-375 | the two parts written one after the other are read back, whatever follows |
| AuthData.InsertQEReportCertificationData | Src/AttestationLibrary/src/QuoteVerification/QuoteStructures.cpp:331-383 | accepts exactly the format and fills the whole slice |
| AuthData.QEReportBytesOfAt | Src/AttestationLibrary/src/QuoteVerification/QuoteStructures.cpp:331-383 | writing back gives exactly the bytes |
| AuthData.QEReportAtOfBytes | Src/AttestationLibrary/src/QuoteVerification/QuoteStructures.cpp:331-383 | reading written data gives it back |
| AuthData.InsertV3AuthData | Src/AttestationLibrary/src/QuoteVerification/QuoteStructures.cpp:385-420 | accepts exactly the version 3 format and consumes the length it declares |
| AuthData.V3BytesOfAt | Src/AttestationLibrary/src/QuoteVerification/QuoteStructures.cpp:385-420 | serialising a parsed value gives exactly the bytes consumed |
| AuthData.V3AtOfBytes | Src/AttestationLibrary/src/QuoteVerification/QuoteStructures.cpp:385-420 | parsing a serialised value gives it back, whatever follows |
| AuthData.InsertV4AuthData | Src/AttestationLibrary/src/QuoteVerification/QuoteStructures.cpp:422-444 | accepts exactly the version 4 format and consumes the length it declares |
| AuthData.V4BytesOfAt | Src/AttestationLibrary/src/QuoteVerification/QuoteStructures.cpp:422-444 | serialising a parsed value gives exactly the bytes consumed |
| AuthData.V4AtOfBytes | Src/AttestationLibrary/src/QuoteVerification/QuoteStructures.cpp:422-444 | parsing a serialised value gives it back, whatever follows |
| AuthData.V3ByOffsets | Src/AttestationLibrary/src/QuoteVerification/QuoteStructures.cpp:385-420 | acceptance and every part of version 3 at its written-out offset |
| AuthData.V4ByOffsets | Src/AttestationLibrary/src/QuoteVerification/QuoteStructures.cpp:422-444 | acceptance and every part of version 4 at its written-out offset |
| AuthData.NestedByOffsets | Src/AttestationLibrary/src/QuoteVerification/QuoteStructures.cpp:331-383 | acceptance and every part of the data nested in it, at offsets of the whole |
| QuoteFormat.Quote.ParseBodyReport | Src/AttestationLibrary/src/QuoteVerification/Quote.cpp:65-129 | version 5: the report chosen by the body descriptor, with its signed bytes |
| QuoteFormat.Quote.ParsePlainReport | Src/AttestationLibrary/src/QuoteVerification/Quote.cpp:130-150 | versions before 5: the report chosen by the TEE type, with its signed bytes |
| QuoteFormat.Quote.ParseAuth | Src/AttestationLibrary/src/QuoteVerification/Quote.cpp:164-201 | authentication data by version, accepted exactly when well formed, and the six copies taken from it |
| QuoteFormat.Quote.Parse | Src/AttestationLibrary/src/QuoteVerification/Quote.cpp:42-213 | succeeds exactly on byte strings of the format, and then every member holds the value at its place in the raw bytes |
| QuoteFormat.AcceptedByOffsets | Src/AttestationLibrary/src/QuoteVerification/Quote.cpp:42-213 | parse accepts exactly the byte strings that meet conditions on raw bytes with every offset and length written out |
| QuoteFormat.HeadByOffsets | Src/AttestationLibrary/src/QuoteVerification/Quote.cpp:50-150 | the header values, the body type and size, the report kind and the end of the signed bytes, at raw offsets |
| QuoteFormat.Quote.GivenByOffsets | Src/AttestationLibrary/src/QuoteVerification/Quote.cpp:164-210 | after a parse the two signatures, the key, the report, the authentication data and the certification data of the getters are the raw bytes at written-out offsets, for version 3 and for version 4 and above |
| QuoteFormat.Quote.ValidByOffsets | Src/AttestationLibrary/src/QuoteVerification/Quote.cpp:215-293 | after a parse validate is true if and only if the conditions on the raw bytes hold: version, key type, TEE type, vendor id, outer and nested certification type, body type |
| QuoteFormat.Quote.SignedDataIsRawPrefix | Src/AttestationLibrary/src/QuoteVerification/Quote.cpp:443-450 | after parse and validate, signedData is the raw prefix up to the auth size, equals header, body and report written back, and is followed by that size |
| QuoteFormat.Quote.AuthDataIsRaw | Src/AttestationLibrary/src/QuoteVerification/Quote.cpp:42-293 | after parse and validate, the authentication data written back is a prefix of the declared bytes, and the nested report data fills its holder |
| QuoteFormat.Quote.SameOffsetsForAllTdReports | Src/AttestationLibrary/src/QuoteVerification/Quote.cpp:368-441 | on every TDX quote the accessors return the same fixed offsets of the raw report, whichever report kind it is |
| CertificateChain.FindString | Src/AttestationLibrary/src/CertVerification/CertificateChain.cpp:187-237 | the first occurrence at or behind a position |
| CertificateChain.SplitChain | Src/AttestationLibrary/src/CertVerification/CertificateChain.cpp:187-237 | computes the splitting function; every at() is in range and the loops end |
| CertificateChain.SplitSlices | Src/AttestationLibrary/src/CertVerification/CertificateChain.cpp:187-237 | on any text the results are disjoint in-order slices, each from a dash to an end marker with a begin marker inside |
| CertificateChain.SplitUndoesJoin | Src/AttestationLibrary/src/CertVerification/CertificateChain.cpp:187-237 | for any markers of the PEM shape, dash-free bodies and gaps: the blocks come back exactly, in order, if and only if no body is the confusing text |
| CertificateChain.PemMarkers | Src/AttestationLibrary/src/CertVerification/CertificateChain.cpp:194-195 | the two markers, written out |
| CertificateChain.SplitUndoesPemJoin | Src/AttestationLibrary/src/CertVerification/CertificateChain.cpp:187-237 | the same for text written with the markers of section 5 of RFC 7468: "-----BEGIN CERTIFICATE-----", body, "-----END CERTIFICATE-----"; the confusing body is "END CERTIFICATE" |
| CertificateChain.TouchingEndEmpties | Src/AttestationLibrary/src/CertVerification/CertificateChain.cpp:187-237 | a second end marker right behind the first block empties the result |
| CertificateChain.SelectRoles | Src/AttestationLibrary/src/CertVerification/CertificateChain.cpp:47-106 | the loops choose the last self-issued certificate and the last one that issued no other |
| CertificateChain.RootIsLast | Src/AttestationLibrary/src/CertVerification/CertificateChain.cpp:47-57 | the root is the last certificate whose subject is its issuer, none if there is none |
| CertificateChain.TopmostIsLast | Src/AttestationLibrary/src/CertVerification/CertificateChain.cpp:96-106 | the topmost is the last certificate that signs no other, none if each does |
| CertificateChain.SigningMeans | Src/AttestationLibrary/src/CertVerification/CertificateChain.cpp:96-102 | a certificate signs another when one of a different subject has its subject for issuer |
| CertificateChain.RolesIgnoreOrder | Src/AttestationLibrary/src/CertVerification/CertificateChain.cpp:47-106 | for any permutation of a linear chain with distinct subjects the roles are its two ends |
| JsonDepth.PushItems | Src/AttestationParsers/src/Json/JsonParser.cpp:47-81 | pushing an array's elements keeps "all subtrees fit" equivalent and the node count exact |
| JsonDepth.PushMembers | Src/AttestationParsers/src/Json/JsonParser.cpp:47-81 | the same for an object's members |
| JsonDepth.IsWithinJsonDepthLimit | Src/AttestationParsers/src/Json/JsonParser.cpp:47-81 | true exactly when the recursive height is at most max(maxDepth, 1), for every tree; ends because the stacked node count falls |
| JsonDepth.HeightIsLongestWay | Src/AttestationParsers/src/Json/JsonParser.cpp:47-81 | the height is one more than the longest way down through elements and members |
| TcbLevels.IdentityOrder | Src/AttestationParsers/src/Json/IdentityTcbLevel.cpp:140-146 | operator> is the vector order of (isvSvn, tcbDate): the SVN decides, then the date |
| TcbLevels.TcbOrder | Src/AttestationParsers/src/Json/TcbLevel.cpp:102-113 | within a document operator> is a strict total order on the keys, the vector order of their concatenation |
| TcbLevels.GreaterAtFirstDifference | Src/AttestationParsers/src/Json/TcbLevel.cpp:102-113 | of two vectors of one length the greater is so at their first difference |
| TcbLevels.TcbGreaterMeans | Src/AttestationParsers/src/Json/TcbLevel.cpp:102-113 | which field decides: the first CPU SVN that differs, then the PCE SVN, then, for version 3 and "TDX" only, the first TDX component that differs |
| TcbLevels.TcbDominanceRespected | Src/AttestationParsers/src/Json/TcbLevel.cpp:102-113 | a level with at least the SVNs of another is equal in all of them or above it, and never below |
| TcbLevels.EmplaceCorrect | Src/AttestationParsers/src/Json/TcbInfo.cpp:310-318 | emplace, with any comparison that orders the levels by their keys, fails exactly on an equal key, and otherwise keeps the set descending with one level more |
| TcbLevels.LoadLevels | Src/AttestationParsers/src/Json/EnclaveIdentity.cpp:255-268 | the insertion loop, with any such comparison, accepts exactly the non-empty lists without duplicate keys and holds all their levels in descending order |
| TcbLevels.LoadTcbLevels | Src/AttestationParsers/src/Json/TcbInfo.cpp:310-323 | with TcbLevel's own comparison: accepted exactly when of any two levels one is above the other; held in descending order |
| TcbLevels.LoadIdentityLevels | Src/AttestationParsers/src/Json/EnclaveIdentity.cpp:255-268 | with IdentityTcbLevel's own comparison: accepted exactly when any two levels differ in SVN or date; held in descending order |
| TcbLevels.DescendingUnique | Src/AttestationParsers/src/Json/TcbInfo.cpp:310-323 | the stored order does not depend on the order of the document |
| TcbLevels.GetTcbLevel | Src/AttestationParsers/src/Json/EnclaveIdentity.cpp:128-138 | the first match is the level with the greatest SVN not above the given one and the newest of those; fails exactly when there is none |
| TcbLevels.SelectionIgnoresOrder | Src/AttestationParsers/src/Json/EnclaveIdentity.cpp:128-138 | two documents with the same levels select the same level |
| Collateral.TimeOfTimeBytes | Src/AttestationLibrary/src/QuoteVerification/VerificationCollateralInfo.cpp:107-125 | an eight-byte time reads back as itself, negative ones too |
| Collateral.TimeByBytes | Src/AttestationLibrary/src/QuoteVerification/VerificationCollateralInfo.cpp:107-125 | a time read from its eight bytes: little-endian, in two's complement |
| Collateral.TimeBytesByDigits | Src/AttestationLibrary/src/QuoteVerification/VerificationCollateralInfo.cpp:107-125 | the eight bytes written for a time, as the digits of its value |
| Collateral.InsertCorrect | Src/AttestationLibrary/src/QuoteVerification/VerificationCollateralInfo.cpp:61-73 | set insertion keeps the order and adds exactly the element |
| Collateral.AscendingUnique | Src/AttestationLibrary/src/QuoteVerification/VerificationCollateralInfo.cpp:41-57 | the iteration order is fixed by the set of ids |
| Collateral.AdvisoryIdsToString | Src/AttestationLibrary/src/QuoteVerification/VerificationCollateralInfo.cpp:41-57 | the ids joined with commas, or the exception exactly when the result has 450 characters or more |
| Collateral.JoinedTwo | Src/AttestationLibrary/src/QuoteVerification/VerificationCollateralInfo.cpp:41-57 | one comma between two ids, none behind the last |
| Collateral.SplitUndoesJoin | Src/AttestationLibrary/src/QuoteVerification/VerificationCollateralInfo.cpp:41-57 | splitting at commas recovers non-empty comma-free ids |
| Collateral.VerificationCollateralInfo.AddLaunchInfo | Src/AttestationLibrary/src/QuoteVerification/VerificationCollateralInfo.cpp:61-66 | records the call: newest date and status, union of ids |
| Collateral.VerificationCollateralInfo.AddCurrentInfo | Src/AttestationLibrary/src/QuoteVerification/VerificationCollateralInfo.cpp:68-73 | records the call: newest date and status, union of ids |
| Collateral.VerificationCollateralInfo.AddDocument | Src/AttestationLibrary/src/QuoteVerification/VerificationCollateralInfo.cpp:75-87 | records the call: one more issue date, next update and evaluation number |
| Collateral.VerificationCollateralInfo.AggregateDataAndParseToVec | Src/AttestationLibrary/src/QuoteVerification/VerificationCollateralInfo.cpp:89-158 | after any calls: zeros without documents, else fails exactly when a text is too long, else a 1048-byte vector whose fixed-offset fields describe the whole history; the final size check never fails |
| Collateral.IdsReadBack | Src/AttestationLibrary/src/QuoteVerification/VerificationCollateralInfo.cpp:127-133 | reading an id field up to its first NUL and splitting gives exactly the union of all added ids, in order |
| Collateral.StatusReadBack | Src/AttestationLibrary/src/QuoteVerification/VerificationCollateralInfo.cpp:135-149 | reading a status field up to its first NUL gives the last status |

## Left out

- GMTime.TimeSub: with an offset other than 0 only a success is described, because both callers pass 0; tm_wday below the year INT_MIN + 1970 is as under GMTime.Weekday; leap-second corrections are constant 0 in this build.
- GMTime.Weekday: on mathematical integers; in C `y - EPOCH_YEAR` (line 280) overflows an int for years below INT_MIN + 1970. Only tm_wday depends on it.
- GMTime.WriteFields: the same subtraction, hence tm_wday for those years; the other fields do not depend on it.
- GMTime.GuessYear: on mathematical integers; in C `newy - 1` (line 234) overflows when the guess is the year INT_MIN.
- GMTime.Settle: the cast of the day count to an int (lines 250-252) is not modelled, since what remains of it there is a day of one year.
- MkTime.TmCompIsTimeOrder: the subtraction of years is on mathematical integers; MkTime.Search says when the code's comparisons fit an int.
- MkTime.GmtimeKeepsOrder: likewise; in C the two tm_year must be less than 2^31 apart.
- MkTime.Probe: the sign is that of the mathematical difference; what C does on an overflow is not modelled.
- MkTime.Search: the doubling loop that sets lo (lines 487-490) is taken as the intended bounds -2^63 and 2^63 - 1; in C it overflows. An overflowing comparison is reported, and the search then goes on with the mathematical difference.
- MkTime.AnswerCorrect: on mathematical integers; ExactIsCorrect is about the runs in which no comparison overflows.
- MkTime.CorrectFromFirstExactYear: no comparison of the first attempt overflows; where the seconds make the second attempt necessary, ExactIsCorrect says when its comparisons do not either.
- MkTime.LongIncrementOverflow: long is the 32-bit type of the source's own LONG_MAX, which is defined beside the code.
- The wrapper that turns a failed gmtime into an exception, getCurrentTime, and the `standard::` time functions, which call library code.
- TimeStrings.StringToTime: the null pointer for str is not modelled, since both callers pass a std::string; characters are signed 8-bit integers.
- TimeStrings.ReadFields: which fields are already stored when a string is rejected; both callers drop them.
- Getopt.Scanner: `-W` long options, LONGONLY and ALLARGS modes, POSIXLY_CORRECT and the option string prefixes `+` and `-` are outside the model (Config.Valid); a long option table is always given, as arg_parse_tagged does.
- Getopt.Scanner.Run: the scan functions that arg_parse_tagged calls are left out; the run returns what they would be told.
- Getopt.Scanner.ParseLongOptions: a table entry with a null flag and the value -1, which would look like the end of the options, is excluded by Config.Valid.
- ArgParse.Untagged.ParseUntagged: scan functions are parameters that see the values an entry holds; what they do with a value beside rejecting or keeping it is left out.
- Allocation, printing, the glossary, regular expressions and dates of argtable3.
- Layout.ReadArray: iterators are positions in a byte sequence, passed in and handed back, in place of references; the casts of distances to unsigned are exact below 4 GiB and taken as exact.
- AuthData.InsertQeAuthData: the structures are returned as values in place of being filled through `this`, so a partly filled structure after a failure is not modelled; parse never uses one. The same holds for the other insert methods.
- QuoteFormat.Quote.Parse: members that a failing parse has already assigned are left open; ok and the members after success are exact. For a TEE type that is neither SGX nor TDX the signed bytes stay as they were, as in the code.
- Signature checks, keys, X.509 and CRL parsing, and the check sequences of the verifiers, which are calls into foreign code or straight-line tests.
- CertificateChain.SelectRoles: names are compared as wholes; the parse errors and their status guesses, and the choice of the PCK certificate by its common name, are left out.
- JsonDepth.IsWithinJsonDepthLimit: values are trees; numbers, strings and the text they come from have no part in depth.
- TcbLevels.LoadLevels: the ordered set is the sequence of its elements in iteration order. Reading a level from JSON is left out.
- Collateral.VerificationCollateralInfo.AddDocument: the two methods that read a TCB info and an enclave identity are one, since they use the same three getters; the isFilled flag is left out.
- Collateral.VerificationCollateralInfo.AggregateDataAndParseToVec: the byte order of memcpy is little-endian and time_t has eight bytes.
- Getters, hex conversion, memory helpers, logging and the command line application.
