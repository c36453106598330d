# A verified model of NTPsec's libraries

NTPsec is an implementation of the Network Time Protocol. This project models the parts of its
libraries that carry the most state, branching and arithmetic, and proves what they are for.

* **JSON tokenizer** (`Jsmn*.dfy`). A single-pass, resumable tokenizer. The parser object works in
  place on a token array and is proved to compute the run of a step function. About that run:
  printing a value and tokenizing the text yields its tokens; running out of tokens and being called
  again loses nothing; calling again on a longer text is right except after a cut inside an unquoted
  value; a refusal is final, and a text found incomplete can be completed; tokens are nested and their
  sizes are conserved.
* **Key store** (`Key*.dfy`). A hash table, a circular list of slots in use and a free list over the
  same slots. Every operation keeps one invariant over all three, and any history of calls leaves
  the store standing for a map that the last calls about a key decide.
* **AES-SIV** (`Polynomial.dfy`, `Gf128.dfy`, `Siv*.dfy`). The incremental S2V computation, doubling in GF(2^128) and
  counter mode in chunks, with CMAC and the AES keystream as uninterpreted functions.
* **Calendar, eras, GPS weeks, year search** (`CInt.dfy`, `Calendar*.dfy`, `Era.dfy`,
  `Clocktime.dfy`). Conversions between day numbers, dates and times, with the widths of the stored
  fields and of the times that are split, unfolding of 32-bit time stamps around a pivot, and the
  search for the year of a time stamp.
* **Fixed point** (`Timespec.dfy`, `Decimal.dfy`, `Dolfptoa.dfy`). Conversions between nanoseconds
  and 64-bit fixed point with exact error bounds, and decimal printing with exact rounding.
* **Stream decoders and the random pool** (`Tsip*.dfy`, `RawDcf*.dfy`, `RandomPool.dfy`).
  Byte-stuffed packets, DCF77 pulses and records, and a pool that hands out no byte twice.

State that the C code changes in place is held by classes and arrays; each method is proved against
a function or relation on values, and the lemmas are about those. `Bits.dfy` relates masks to
remainders for the key table and the pulse test.

Where a promise of the source or its comments does not hold for every input, the exact condition is
proved together with an input that breaks it:

* A tokenizer call on a longer text repeats the work of the first call unless the text was cut inside
  an unquoted value (`JsmnStream.ContinuesIff`, `JsmnAnswers.CutOneTwo`).
* A cached year start gives the answer of the full year search if and only if it really is the time
  stamp of a year start near the target (`Clocktime.FastPathIff`, `Clocktime.StaleCacheDiffers`).
* A time interval survives the trip through fixed point unless it is out of range; -2^31 seconds comes
  back with the opposite sign (`Timespec.IntvThereAndBackIff`, `Timespec.LeastIntervalFlips`).
* A packet decoder that has just delivered a long packet takes the next start of packet for an
  overflow (`Tsip.StreamIff`, `Tsip.FrameAfterLongOneLost`).
* Pulses of two lengths that differ by one are told apart only if the shorter is more frequent
  (`RawDcfThreshold.ToldApartIff`, `RawDcfThreshold.OneApartIsNotEnough`).

Two comments of the source disagree with its code, and the model follows the code: the printing of
fixed-point numbers is announced as lossy in the low digits (libntp/dolfptoa.c:4-6) but is exact
rounding, and the table of DCF77 bits in a comment (libparse/clk_rawdcf.c:58-60) is off by one against
the field offsets in use (libparse/clk_rawdcf.c:101-104).

## Model

| member | source | states |
|---|---|---|
| `JsmnAnswers.PrimitiveEnds` | libjsmn/jsmn.h:116-156 | an unquoted value ends at the first delimiter or the end of the text; it is refused if and only if a character that is not printable comes first |
| `JsmnRoundTrip.ScanStringIff` | libjsmn/jsmn.h:174-244 | the scan finds a quote at a place if and only if what stands before it is the text of a string: plain characters, escapes, and \u with four hexadecimal digits |
| `Jsmn.LastOpen` | libjsmn/jsmn.h:318-339 | the last token that is started and not ended |
| `JsmnParser.Parser.constructor` | libjsmn/jsmn.h:440-444 | a fresh parser is at position 0 with no token and no superior token |
| `JsmnParser.Parser.AllocToken` | libjsmn/jsmn.h:87-100 | takes the next token of the array if there is room and leaves the others alone |
| `JsmnParser.Parser.ParsePrimitive` | libjsmn/jsmn.h:116-169 | does what the scan says, and gives the position back on failure |
| `JsmnParser.Parser.ParseString` | libjsmn/jsmn.h:174-244 | does what the scan says, and gives the position back on failure |
| `JsmnParser.Parser.Open` | libjsmn/jsmn.h:262-288 | an opening bracket: a new token that counts as a child of the superior token and becomes superior |
| `JsmnParser.Parser.Close` | libjsmn/jsmn.h:289-341 | a closing bracket ends the last open token if it is of that kind, and makes the one before it superior |
| `JsmnParser.Parser.Comma` | libjsmn/jsmn.h:360-377 | a comma makes the last open container superior again |
| `JsmnParser.Parser.Leaf` | libjsmn/jsmn.h:342-351 | a string or an unquoted value: token, child count and position as the step function says |
| `JsmnParser.Parser.Dispatch` | libjsmn/jsmn.h:256-427 | the turn of the loop for any character is the step of the specification |
| `JsmnParser.Parser.Parse` | libjsmn/jsmn.h:249-435 | the in-place loop computes the run of the specification, or only its count when no token array is given; tokens not allocated keep their contents |
| `JsmnResume.MoreRoom` | libjsmn/jsmn.h:87-100 | more room changes a run only if it ran out of tokens, and then the run continues where it stopped |
| `JsmnResume.GrowingCallsAreOneCall` | libjsmn/jsmn.h:77-100 | any series of out-of-tokens returns followed by calls with no less room ends in the result, state and tokens of one call with the final room |
| `JsmnResume.RoomUsed` | libjsmn/jsmn.h:249-435 | positions stay in the text, tokens never exceed the room, each new token takes at least one character |
| `JsmnResume.OutOfTokensIff` | libjsmn/jsmn.h:153-162 | a call runs out of tokens if and only if it has less room than the text needs |
| `JsmnResume.CountingPass` | libjsmn/jsmn.h:254-271 | a pass without an array returns the number of tokens that every successful pass uses |
| `JsmnResume.CountedRoomSuffices` | libjsmn/jsmn.h:188-202 | room for the number the counting pass returned never runs out |
| `JsmnStream.ContinuesIff` | libjsmn/jsmn.h:116-169 | calling again on a longer text gives what one call on it gives, if and only if the first text was not cut inside an unquoted value |
| `JsmnAnswers.CutOneTwo` | libjsmn/jsmn.h:116-169 | an input after which the two calls differ: "1", then "12" |
| `JsmnAnswers.InvalIsFinal` | libjsmn/jsmn.h:249-435 | a text that is refused is refused however it goes on |
| `JsmnAnswers.PartCompletes` | libjsmn/jsmn.h:40-41 | a text that is found incomplete has a continuation with which, given room, it is read completely |
| `JsmnNesting.StepKeepsNesting` | libjsmn/jsmn.h:256-428 | every step keeps: token starts strictly increase, intervals are nested or disjoint, brackets stand at the ends of containers |
| `JsmnNesting.RunIsNested` | libjsmn/jsmn.h:256-433 | so does every run; after a successful one every token is ended and the result is their number |
| `JsmnNesting.SizesAreConserved` | libjsmn/jsmn.h:272-284 | the sizes a run adds up to are the tokens it created less those created with no parent |
| `JsmnRoundTrip.TokenizingInvertsPrinting` | libjsmn/jsmn.h:249-434 | for every JSON value and any white space, with room for its tokens a run over the printed text yields exactly its preorder token list: types, start, end, and size as the number of elements, of keys, or one for a key; with less room it runs out of tokens |
| `JsmnRoundTrip.RunValue` | libjsmn/jsmn.h:249-434 | the text of a value inside any text adds exactly its tokens and one child to the superior token |
| `JsmnRoundTrip.RunElems` | libjsmn/jsmn.h:249-434 | the elements of an array add their tokens, and their number to its size |
| `JsmnRoundTrip.RunMembers` | libjsmn/jsmn.h:249-434 | the members of an object add their tokens, and the number of keys to its size |
| `JsmnRoundTrip.ScanPrinted` | libjsmn/jsmn.h:174-244 | the scan of a printed string, with every escape, stops at its closing quote |
| `KeyMemory.LinkTailAppends` | include/ntp_lists.h:395-401 | LINK_TAIL_DLIST makes the ring one longer at its end |
| `KeyMemory.UnlinkRemoves` | include/ntp_lists.h:403-409 | UNLINK_DLIST takes exactly that element out of the ring, forward and backward |
| `KeyMemory.FChainPush` | include/ntp_lists.h:128-132 | LINK_SLIST puts an element at the head of the free list |
| `KeyInvariant.RemoveBucket` | include/ntp_lists.h:182-205 | UNLINK_EXPR_SLIST takes exactly that element out of its bucket |
| `KeyInvariant.AllocKeeps` | libntp/authkeys.c:278-350 | taking a slot keeps buckets, ring and free list consistent and adds just that key to the map |
| `KeyInvariant.FreeKeeps` | libntp/authkeys.c:357-380 | releasing a slot keeps them consistent and removes just that key from the map |
| `KeyInvariant.SetEntryKeeps` | libntp/authkeys.c:413-421 | changing the contents of a slot keeps them consistent and changes just that entry |
| `KeyInvariant.RehashStep` | libntp/authkeys.c:271-274 | linking one more slot of the ring into the new table keeps buckets that hold exactly the slots done so far |
| `KeyInvariant.MaskIsBucket` | libntp/authkeys.c:52-52 | the mask of a table whose size is a power of two picks the bucket that is the remainder of the key number |
| `KeyStore.Store.constructor` | libntp/authkeys.c:98-114 | the initial store is consistent and empty |
| `KeyStore.Store.KeyHash` | libntp/authkeys.c:52-52 | the masked key number is the bucket the invariant speaks of |
| `KeyStore.Store.Find` | libntp/authkeys.c:400-404 | the walk along a bucket finds the slot of a key if and only if the key is in the map |
| `KeyStore.Store.MoreMem` | libntp/authkeys.c:174-208 | adds zeroed slots to the free list, MEMINC if none are asked for; the slots there were and the map are as before |
| `KeyStore.Store.Alloc` | libntp/authkeys.c:278-350 | a slot is taken, after getting more if none is free; the map gains the entry |
| `KeyStore.Store.Trust` | libntp/authkeys.c:388-426 | authtrust does to the map what its specification says; slots are added just when a new key meets an empty free list |
| `KeyStore.Store.Lookup` | libntp/authkeys.c:432-455 | authlookup returns the slot of a key if and only if it has a real type and is trusted when that is asked for |
| `KeyStore.Store.SetKey` | libntp/authkeys.c:459-553 | auth_setkey sets type and bytes of the key and keeps its trust; slots are added just when a new key meets an empty free list |
| `KeyStore.Store.FreeSlot` | libntp/authkeys.c:357-380 | free_auth_info removes the key from the map and the slot from the ring and its bucket |
| `KeyStore.Store.DelKeys` | libntp/authkeys.c:559-586 | auth_delkeys, walking the ring while slots leave it, drops every untrusted key and keeps of the others only the trust; no slot is lost |
| `KeyStore.Store.DelKeysStep` | libntp/authkeys.c:563-585 | one round of that walk: the next slot is still the next one of the ring as it was at the start |
| `KeyStore.Store.Resize` | libntp/authkeys.c:244-275 | rehashing changes the table to 2^4 up to 2^15 buckets and nothing in the map |
| `KeyStore.Store.Prealloc` | libntp/authkeys.c:213-226 | the total of slots becomes at least the number asked for; the map is as before |
| `KeyHistory.HistoryDecides` | libntp/authkeys.c:387-586 | after every history of calls a key is trusted if and only if the last authtrust on it said so, and holds the type and bytes of the last auth_setkey since the last auth_delkeys |
| `KeyHistory.Replay` | libntp/authkeys.c:387-586 | the store driven through any history is consistent and stands for the map of that history |
| `KeyHistory.LookupAfter` | libntp/authkeys.c:432-455 | authlookup after any history answers by the last calls about the key alone |
| `Gf128.DblShifts` | libaes_siv/aes_siv.c:196-208 | dbl on two words is the doubling of section 2.3 of RFC 5297 |
| `Gf128.DoublingIsTimesX` | libaes_siv/aes_siv.c:196-208 | that doubling is multiplication by x in GF(2^128): with coefficients as exponent sets and products by counting pairs modulo two, it is a remainder of x times the block modulo x^128 + x^7 + x^2 + x + 1 |
| `Polynomial.RemainderIsUnique` | libaes_siv/aes_siv.c:196-208 | such a remainder, of degree below 128, is unique, so that it determines the doubling |
| `Gf128.DblWordsInjective` | libaes_siv/aes_siv.c:196-208 | no two blocks have the same double; an explicit halving is the inverse |
| `SivBlock.SwapIsBigEndian` | libaes_siv/aes_siv.c:134-142 | bswap64 turns a word read in little-endian order into the big-endian one |
| `SivBlock.WordsOfBlock` | libaes_siv/aes_siv.c:144-164 | writing back the two words read from a block gives the block |
| `SivBlock.BlockOfWords` | libaes_siv/aes_siv.c:166-186 | reading gives the two words written |
| `SivBlock.JoinXor` | libaes_siv/aes_siv.c:188-194 | xor of words is xor of their bytes |
| `SivBlock.ZeroWords` | libaes_siv/aes_siv.c:521-527 | both words of a block are zero if and only if all its bytes are |
| `SivBlock.DblOfWords` | libaes_siv/aes_siv.c:196-208 | dbl on a block of bytes is dbl on its two big-endian words |
| `SivBlock.DblInjective` | libaes_siv/aes_siv.c:196-208 | dbl is injective on blocks of bytes |
| `Siv.CtrInverts` | libaes_siv/aes_siv.c:432-464 | counter mode is its own inverse |
| `Siv.GenuineIffSealed` | libaes_siv/aes_siv.c:498-538 | a tag and ciphertext are accepted with text p if and only if they are the sealing of p |
| `Siv.SealOpens` | libaes_siv/aes_siv.c:540-598 | what was sealed opens to the text, for every length |
| `SivContext.Context.Init` | libaes_siv/aes_siv.c:293-355 | keys of 32, 48 or 64 bytes are split in halves and S2V starts from the CMAC of zero; others are refused and change nothing |
| `SivContext.Context.AssociateData` | libaes_siv/aes_siv.c:357-387 | each call extends the S2V of section 2.4 of RFC 5297 by one string |
| `SivContext.Context.FeedEnd` | libaes_siv/aes_siv.c:389-430 | a text of a block or more: the state is xored onto its last block |
| `SivContext.Context.FeedPadded` | libaes_siv/aes_siv.c:389-430 | a shorter text: the padded block is xored with the doubled state |
| `SivContext.Context.S2VOf` | libaes_siv/aes_siv.c:389-430 | the incremental computation yields S2V of all strings and the text |
| `SivContext.Context.Encrypt` | libaes_siv/aes_siv.c:432-464 | for every length and positive chunk size, the chunk loop is one counter-mode pass over the whole message, and writes nothing else |
| `SivContext.Context.EncryptFinal` | libaes_siv/aes_siv.c:466-496 | for any places in one or two buffers the ciphertext is that of the specification, and so is the tag unless the two overlap; all other bytes are untouched |
| `SivContext.Context.DecryptFinal` | libaes_siv/aes_siv.c:498-538 | succeeds if and only if the tag is S2V of the recovered text; otherwise the output is all zero |
| `SivContext.Context.SivEncrypt` | libaes_siv/aes_siv.c:540-567 | one-shot encryption; refused without writing when the buffer is too small |
| `SivContext.Context.SivDecrypt` | libaes_siv/aes_siv.c:569-598 | one-shot decryption of exactly the genuine ciphertexts; nothing is written for a refused length or key, and never a byte past the text |
| `SivContext.SameBlock` | libaes_siv/aes_siv.c:521-527 | the branch-free comparison of words is equality of blocks |
| `Calendar.TableIsSum` | libntp/ntp_calendar.c:80-90 | the month tables hold the sums of the month lengths |
| `Calendar.DaysInYearsIsSum` | libntp/ntp_calendar.c:609-640 | for every year, of either sign, the closed form is the sum of the lengths of the years |
| `Calendar.SplitEraDaysIsYear` | libntp/ntp_calendar.c:392-440 | splitting any day number finds its year, day of the year and leap flag |
| `Calendar.SplitYearDaysIsMonth` | libntp/ntp_calendar.c:453-475 | splitting a day of the year finds its month and day; others give (-1, -1) |
| `Calendar.BranchesAgree` | libntp/ntp_calendar.c:693-742 | the branch with the real month table and the branch with shifted months agree for every year, month and day count |
| `Calendar.EraDaysCounts` | libntp/ntp_calendar.c:651-712 | months off the scale count whole years of the lengths those years have |
| `CalendarDates.RdToDateInverts` | libntp/ntp_calendar.c:483-520 | for every day number: in years 0..65535 a valid date that maps back, right day of the year, leap flag and floor weekday; for all others the result is -1 |
| `CalendarDates.DateToRdInverts` | libntp/ntp_calendar.c:791-802 | every date of those years comes back from its day number |
| `CalendarTime.TimeSplitInverts` | libntp/ntp_calendar.c:355-383 | a time splits into floor days and a time of day that adds up to the rest |
| `CalendarTime.DaySplitFloor` | libntp/ntp_calendar.c:330-347 | ntpcal_daysplit gives the second of the day for every time, and the floor day number, exactly while that fits 32 bits and modulo 2^32 always |
| `CalendarTime.Cal.StoreDate` | libntp/ntp_calendar.c:483-520 | the fields stored, with their widths, are those of the value function |
| `CalendarTime.Cal.SetDate` | libntp/ntp_calendar.c:483-520 | the stored date is converted rightly in the sense above |
| `CalendarTime.Cal.SetClock` | libntp/ntp_calendar.c:530-545 | the fields are the one time of day whose seconds are those left after the whole days, which are returned |
| `CalendarTime.Cal.SetTime` | libntp/ntp_calendar.c:552-570 | date, weekday and time of day for every time, of the day number it splits into, which is the true one while it fits; in years 0..65535 they denote that day and second again |
| `CalendarTime.TimeThereAndBack` | libntp/ntp_calendar.c:834-847 | date_to_time inverts time_to_date for every time of those years |
| `CalendarTime.DateThereAndBack` | libntp/ntp_calendar.c:552-570 | time_to_date inverts date_to_time on every date and time of day |
| `CalendarTime.GpsToCal` | libparse/gpstolfp.c:48-63 | the date of a GPS week and second, through 64-bit arithmetic |
| `CalendarTime.CalToGps` | libparse/gpstolfp.c:66-83 | week and second in the week add up to the time since the start of GPS time, as long as that is not negative and its weeks fit 32 bits |
| `CalendarTime.GpsThereAndBack` | libparse/gpstolfp.c:48-83 | caltogps inverts gpstocal; seconds of a week or more count on into later weeks |
| `CalendarTime.WeekAdj` | libparse/gpstolfp.c:35-45 | the first week in steps of 1024 that is not before the build week, whenever there is one |
| `CalendarTime.WeekAdjEndsIff` | libparse/gpstolfp.c:35-45 | the loop, with its 32-bit wrap-around, can end if and only if the greatest week number in steps of 1024 is not before the build week |
| `Era.PeriodicExtendIs` | libntp/ntp_calendar.c:207-249 | for both signs of a cycle of more than one, the result is congruent to the value and in the cycle at the pivot; for others and for the cycle -2^31 it is the pivot |
| `Era.UnfoldIsUnique` | libntp/ntp_calendar.c:265-310 | only one number within half an era of the pivot is congruent to a given one |
| `Era.UnfoldsAroundPivot` | libntp/ntp_calendar.c:265-310 | ntp_to_time is that number for every time stamp and pivot, modulo 2^64, and ntp_to_ntp is it plus the epoch offset |
| `Clocktime.YearToNtpIsStart` | libntp/clocktime.c:169-176 | year_to_ntp is the start of the year modulo 2^32, for every year |
| `Clocktime.YearOfTime` | libntp/clocktime.c:155-167 | ntp_to_year finds the year the time falls in |
| `Clocktime.BestIsNearest` | libntp/clocktime.c:132-152 | the best of the year and its neighbours is the nearest of all years |
| `Clocktime.Candidates` | libntp/clocktime.c:132-142 | the first loop tries the year and its two neighbours: start, stamp and 32-bit distance of each |
| `Clocktime.Least` | libntp/clocktime.c:143-146 | the second loop finds the least, the middle one if none is less |
| `Clocktime.Search` | libntp/clocktime.c:122-153 | for every 64-bit pivot the search settles on the year start of least 32-bit distance around the year of the target, and tells whether it is within CLOSETIME |
| `Clocktime.SearchIsNearest` | libntp/clocktime.c:122-153 | that is the year start nearest to the target over all calendar years, at its true distance of at most 183 days |
| `Clocktime.Clocktime` | libntp/clocktime.c:54-153 | all three paths: a four-digit year as it is, a near cached year start, the search |
| `Clocktime.FastPathIff` | libntp/clocktime.c:108-120 | the cached answer, stamp and flag, is that of the full search if and only if the cache is the stamp of a year start less than half an era from the target |
| `Clocktime.StaleCacheDiffers` | libntp/clocktime.c:108-120 | a cached value that is no year start for which the answers differ |
| `Dolfptoa.TimesTen` | libntp/dolfptoa.c:80-113 | the shifts and adds on two words multiply the fraction by ten exactly |
| `Dolfptoa.IntPart` | libntp/dolfptoa.c:47-60 | the first loop writes the decimal digits of the integral part |
| `Dolfptoa.FracPart` | libntp/dolfptoa.c:80-113 | after each turn digits and remainder together are the number times a power of ten |
| `Dolfptoa.CarryFits` | libntp/dolfptoa.c:41-46 | the rounding carry never leaves the buffer on the left |
| `Dolfptoa.Carry` | libntp/dolfptoa.c:120-134 | the carry loop adds one unit in the last place |
| `Dolfptoa.Dolfptoa` | libntp/dolfptoa.c:16-162 | for every 64-bit value the text is the number rounded half up to min(digits asked, 14) places, times 1000 in millisecond mode, in decimal without superfluous zeros |
| `Dolfptoa.Mfpto` | libntp/dolfptoa.c:165-194 | sign and magnitude of the two's complement value, printed so |
| `Decimal.NumOfShortest` | libntp/dolfptoa.c:136-156 | the decimal form reads back as the number |
| `Decimal.SplitAtPoint` | libntp/dolfptoa.c:143-156 | dropping leading zeros left of the point gives the decimal form of the whole part, and the places after it |
| `Timespec.NormalizeLoop` | libntp/timespecops.c:73-88 | the loop form of normalize_tspec computes what the division form does |
| `Timespec.NormalizeIs` | libntp/timespecops.c:56-72 | normalising keeps the interval and gives nanoseconds in range |
| `Timespec.NormalIsUnique` | libntp/timespecops.c:14-18 | no two normalised values denote the same interval |
| `Timespec.ArithmeticIs` | libntp/timespecops.c:118-192 | sums, differences and negation of intervals, normalised |
| `Timespec.AbsIs` | libntp/timespecops.c:194-213 | the absolute interval, normalised |
| `Timespec.ComparisonIs` | libntp/timespecops.c:215-277 | comparisons and tests are those of the intervals |
| `Timespec.NsToFracIs` | include/timespecops.h:43-44 | nanoseconds to fraction: nearest unit, no overflow |
| `Timespec.FracToNsIs` | include/timespecops.h:41-42 | fraction to nanoseconds: nearest nanosecond; a fraction close to one gives 10^9 |
| `Timespec.IntvThereAndBackIff` | libntp/timespecops.c:284-331 | tspec to l_fp and back is the identity on a normalised interval if and only if it is greater than -2^31 s and at most 2^31 s |
| `Timespec.LeastIntervalFlips` | libntp/timespecops.c:308-331 | -2^31 s comes back as 2^31 s |
| `Timespec.LfpThereAndBack` | libntp/timespecops.c:284-331 | l_fp to tspec and back errs by at most two units, modulo 2^64 |
| `Timespec.StampThereAndBackIff` | libntp/timespecops.c:294-371 | a time stamp comes back if and only if its seconds are within half an era of the pivot |
| `Timespec.LfpStampThereAndBack` | libntp/timespecops.c:294-371 | an l_fp time stamp comes back within two units, modulo 2^64 |
| `Tsip.RunKeeps` | libparse/clk_trimtsip.c:100-167 | on any bytes: inside a packet both buffers hold the same bytes and have room; delivered packets are framed and short enough |
| `Tsip.RunPays` | libparse/clk_trimtsip.c:100-167 | the packets delivered never stand for more bytes than were received |
| `Tsip.RunFrame` | libparse/clk_trimtsip.c:128-164 | one frame is unstuffed into its body, and leaves its length in the buffer indices |
| `Tsip.StreamIff` | libparse/clk_trimtsip.c:100-167 | a concatenation of frames is decoded into exactly its bodies if and only if they fit |
| `Tsip.FitsIs` | libparse/clk_trimtsip.c:117-125 | what fitting means: every body short enough, and each but the last by enough more that its leftover length is not taken for an overflow |
| `Tsip.FrameAfterLongOneLost` | libparse/clk_trimtsip.c:117-125 | a long body after which the next frame is lost |
| `TsipReceiver.Receiver.Input` | libparse/clk_trimtsip.c:100-167 | the in-place handler, with all writes inside the buffers, does the step of the specification and copies completed packets out |
| `TsipReceiver.Receiver.Feed` | libparse/clk_trimtsip.c:100-167 | any bytes fed one by one give the packets of the specification |
| `TsipReceiver.Receive` | libparse/clk_trimtsip.c:100-167 | for every buffer size, a new receiver recovers every body of a stream if and only if the lengths allow it |
| `RawDcf.ExtBf` | libparse/clk_rawdcf.c:145-163 | a field is read as a binary number, least significant bit first |
| `RawDcf.PCheck` | libparse/clk_rawdcf.c:165-182 | one for an even number of ones in a parity group, else zero |
| `RawDcf.Convert` | libparse/clk_rawdcf.c:184-294 | convert_rawdcf with its length, character, start, parity and zone checks |
| `RawDcfCode.DecodeInvertsEncode` | libparse/clk_rawdcf.c:184-294 | for every time, weekday and free bits the encoded minute is accepted, at every admitted length, with exactly that time and flags |
| `RawDcfCode.FlipRefusedIff` | libparse/clk_rawdcf.c:217-223 | of an accepted full record, one flipped bit leads to refusal if and only if it is bit 17, 18 or 20 to 58 |
| `RawDcfCode.FlipKeepsTime` | libparse/clk_rawdcf.c:217-281 | a flip that is not refused changes announcements only |
| `RawDcfPulses.RunTest` | libparse/clk_rawdcf.c:338-346 | the test (ch+1)&ch accepts exactly runs of low ones |
| `RawDcfPulses.Tally` | libparse/clk_rawdcf.c:337-358 | the first loop replaces bytes by pulse lengths and counts them in the histogram |
| `RawDcfThreshold.FindValley` | libparse/clk_rawdcf.c:404-414 | the last loop over the histogram finds the first and last least entry between the two means |
| `RawDcfThreshold.Threshold` | libparse/clk_rawdcf.c:360-414 | the cutoff is the middle of that valley; no index leaves the histogram |
| `RawDcfThreshold.ToldApartIff` | libparse/clk_rawdcf.c:330-436 | pulses of two lengths are told apart if and only if the lengths differ by two or more, or the shorter is more frequent |
| `RawDcfThreshold.OneApartIsNotEnough` | libparse/clk_rawdcf.c:404-414 | an input: one pulse of length 4 and one of length 5 are not told apart |
| `RawDcfThreshold.Cvt` | libparse/clk_rawdcf.c:330-438 | the whole in-place conversion: each length is compared with the cutoff of the histogram, so that exactly the long pulses become ones under that condition; a byte that is no pulse is marked and reported, and the buffer past the record is untouched |
| `RawDcfMinute.PulseMeasured` | libparse/clk_rawdcf.c:338-348 | a pulse of any length is measured as that length |
| `RawDcfMinute.SameRecord` | libparse/clk_rawdcf.c:184-294 | a record of 59 characters means the same whatever follows it in the buffer |
| `RawDcfMinute.ReceiveMinute` | libparse/clk_rawdcf.c:296-441 | from pulses to clock time: every minute sent with two pulse lengths that differ by two or more is received as exactly the time and flags it was sent for |
| `RandomPool.Generator.Fill` | libntp/ntp_random.c:31-39 | a buffer is filled from the generator; a negative count does nothing |
| `RandomPool.Pool.Refill` | libntp/ntp_random.c:48-51 | only burned bytes are replaced; those not handed out stay |
| `RandomPool.Pool.RandBytes` | libntp/ntp_random.c:41-54 | the bytes handed out, for every count, are the ones at new positions of the generator; copies stay inside the pool |
| `RandomPool.Pool.Requests` | libntp/ntp_random.c:41-54 | over every sequence of requests no position is handed out twice; each request below the size of the pool is served from it, and the bytes drawn to fill it less those served from it are what it still holds |

## Left out

- The strict and parent-link builds of the tokenizer, and overflow of its 32-bit positions: texts and positions are unbounded.
- JsmnAnswers.PartCompletes: takes texts without a NUL, behind which the tokenizer reads nothing.
- Heap addresses of key slots: slots live in one growing memory and are addressed by index, with -1 for NULL and 0 for the list head, so that aliasing is by index.
- MAC contexts, digests and key names in the slots of the key store, the lookup statistics, and releasing all memory at exit.
- The floating-point logarithm that picks the size of the key table: the number of bits is a parameter, clamped as the code does.
- OpenSSL: CMAC and the keystream are uninterpreted functions with a streaming contract; failing calls, wiping of secrets other than a refused plaintext, and constant-time behaviour are not modelled.
- Copying and freeing of AES-SIV contexts, and overflow of `size_t` lengths.
- CalendarTime.Cal.SetTime: the sum of the day number, the carry of the time of day and the origin is unbounded; in C it is a 32-bit sum.
- CalendarTime.WeekAdj: says nothing about the build weeks of CalendarTime.WeekAdjEndsIff for which the loop never ends.
- Overflow of the 32-bit day numbers, years and months of the calendar: `DaysInYears`, `SplitEraDays` and `EraDays` compute with unbounded integers.
- CalendarTime.DateThereAndBack: takes epochs within a billion days of day 0; the code uses the two epochs of 1900 and 1970.
- Clocktime.Search: says nearest over all years only through Clocktime.SearchIsNearest, while the day count of the target fits 32 bits.
- Timespec.ArithmeticIs: seconds and nanoseconds are unbounded, so that overflow of 64-bit fields is not modelled.
- The conversions between `double` and timespec, and between unsigned intervals and timespec.
- Dolfptoa.Dolfptoa: the text is a value; the ring of static buffers it is written to is not modelled.
- The private data pointer of the packet decoder that may be null, packet time stamps, and the decoding of packet contents.
- RawDcfThreshold.Cvt: takes at most 61 bytes, the size of the bit buffer, which keeps the 8-bit histogram counts from wrapping.
- What the DCF77 driver does after a record is converted: plausibility of successive minutes and synthesis of pulses.
- RandomPool.Generator.Fill: a failing generator, on which the program exits, is not modelled.
- The other clock formats, the ntpd protocol engine, logging, sockets, configuration and the Python tools: field extraction, I/O or glue.
