# Verified model of the demo's numeric and order-book kernels

The repository is a set of database demos built around a few dense algorithmic kernels. This project
models those kernels in Dafny, in the form they have in the source (objects are classes, loops are
loops, expressions are functions), and proves that each does what it is for.

| file | what it models |
|---|---|
| `MulDiv.dfy` | 64x64/64 multiply-divide on machine words, against its 128-bit form |
| `Bits.dfy`, `Polynomials.dfy`, `Crc.dfy` | polynomials over GF(2); bit-serial, table-driven and augmented-message CRC computers |
| `NumberTheory.dfy`, `Rational.dfy` | fractions in lowest terms without renormalising; comparison by continued fractions |
| `Engine.dfy`, `Ledger.dfy`, `Conservation.dfy` | the order execution engine, the account book it refines, and where shares go |
| `OrderBook.dfy`, `PriceLevels.dfy` | the sorted book, and the book collapsed to one line a price |
| `Bytes.dfy`, `EngineState.dfy` | the binary form of the engine's state, written and read through a moving cursor |
| `IsoTime.dfy`, `Snapshot.dfy` | snapshot keys, and any history of program runs sharing a store of quarter-hour snapshots |
| `Wire.dfy` | the ITCH stream reader: frames, fields, the shift-and-swap timestamp, and a reference encoder |
| `Quotes.dfy` | in-place midpoint displacement |
| `Timespec.dfy`, `Generator.dfy` | saturating time arithmetic and the trading-log schedule |
| `Arith.dfy` | facts about products and quotients the others share |

How the proofs are organised: a method is proved equal to a function of its inputs (or of the old
state), and what the source promises is proved about that function by lemmas. Machine words wrap
explicitly: `MulDiv` takes every sum, difference and product modulo 2^64, `Crc` lets arbitrary bits
stand above the width of a remainder, and the engine subtracts shares modulo 2^32. C++ division that
cuts off toward zero is `NumberTheory.Quot` and `NumberTheory.Rem`.

Where the code and what is said about it disagree, the model follows the code:

- A snapshot is stored under the quarter hour at or before the requested instant, but holds the state
  of the instant itself (src/nasdaq_exec/nasdaq_exec.cpp:264-271). Two properties are kept apart. What a
  run prints: `Snapshot.HistoriesRightExactly` says that, whatever set of instants snapshots are asked for
  at, every run of every history prints the state of the whole day (or meets the null `match`) exactly when
  all those instants are quarter hours, or lie in the first quarter hour of 1970, whose label is the zero
  time that stands for "no snapshot". At any other instant, making the same run twice prints a wrong book
  (`Snapshot.RepeatedRunMisled`), and so does a run at the quarter hour before it
  (`Snapshot.AlignedRunMisled`). What the store holds: `Snapshot.SoundExactlyAtQuarters` says that
  the same instants are the ones at which a run leaves every sound store sound.
- The key scan may end with a null `match`, from which a string is constructed before the test for
  null (src/nasdaq_exec/nasdaq_exec.cpp:237 and 242). The model calls that outcome `Undefined`, and
  `Snapshot.RunShowsTheDay` says exactly when it happens.
- The declared length of a frame is checked against the bytes left, but the cursor moves by the size
  of the message type (src/nasdaq_exec/itch_messages.hpp:1064-1073). `Wire.LengthMustAgree` says when
  the next frame is still found.
- The argument for `+=` starts from "gcd(b,c)=1" (thirdparty/boost/boost/rational.hpp:496); what is
  needed, and what `Rational.SumCancel` requires, is that both fractions are in lowest terms.
- The comment at src/nasdaq_exec/itch_exec.hpp:24 speaks of four decimals while the conversion at
  127-130 keeps three. Prices enter the model already converted.

Three premises of the source's environment are stated as assumptions: a query for a time range is half-open
(`Snapshot.Range`), a prefix query gives at most 100 matching keys in text order
(`Snapshot.PrefixResult`), and the table is in time order (`Snapshot.Sorted`).

## Model

| member | source | states |
|---|---|---|
| MulDiv.MulDiv64 | src/utils/utils.cpp:7-74 | on all 64-bit inputs with a nonzero divisor, through every early return, the word-only branch gives the floor of a*b/c modulo 2^64, which is the 128-bit branch |
| MulDiv.QuotientDigit | src/utils/utils.cpp:44-54 | the estimate-and-correct loop leaves exactly the base-2^32 quotient digit, after at most two corrections |
| MulDiv.LongDivide | src/utils/utils.cpp:26-70 | the two digits produced for a normalised divisor spell the exact quotient of the full 128-bit product |
| MulDiv.DivideProduct | src/utils/utils.cpp:22-70 | normalising, dividing and joining the digits gives the exact quotient of the two remainders although the digits divide scaled numbers |
| MulDiv.Product | src/utils/utils.cpp:26-37 | the three columns hold the exact 128-bit product, no column sum having wrapped |
| MulDiv.SplitProduct | src/utils/utils.cpp:13-16 | taking out the whole multiples of the divisor leaves only the quotient of the two remainders |
| MulDiv.EasyPartPlusTail | src/utils/utils.cpp:14-20 | the wrapping sum of the easy part and the rest is the specified value modulo 2^64 |
| MulDiv.Normalised | src/utils/utils.cpp:23-25 | the scaled divisor fits in a word and has its top bit set |
| MulDiv.EstimateNotBelow | src/utils/utils.cpp:45 | the estimated digit is never below the true one |
| MulDiv.EstimateWithinTwo | src/utils/utils.cpp:48-49 | with a normalised divisor it is at most two above it |
| MulDiv.TooLargeExact | src/utils/utils.cpp:50-63 | the loop condition, in wrapping arithmetic, holds exactly while the estimate is above the true digit |
| MulDiv.TestFits | src/utils/utils.cpp:50 | the products and the sum of that condition do not wrap |
| MulDiv.RemainderExact | src/utils/utils.cpp:55-58 | the subtraction that may wrap still leaves the exact difference whenever that fits in a word |
| MulDiv.DigitRemainder | src/utils/utils.cpp:55-58 | subtracting the true digit's multiple leaves the remainder of the top three digits, below the divisor |
| Bits.ReflectLoop | thirdparty/boost/boost/crc.hpp:306-326 | the accumulator loop mirrors the low bits, also when the word has others above them |
| Polynomials.RemainderUnique | thirdparty/boost/boost/crc.hpp:730-751 | over GF(2) a dividend leaves only one remainder below the degree of the generator |
| Crc.SerialIsDivision | thirdparty/boost/boost/crc.hpp:727-823 | for every message and parameter set, a word is the bit-serial checksum exactly when its bits are those of the remainder that message * x^width + initial value * x^bits leaves on division by the generator, reflected, xored and cut to the width as the parameters say |
| Crc.StepsDivide | thirdparty/boost/boost/crc.hpp:753-770 | any number of steps leave a remainder of the bits moved up by the width plus what was there moved up by their number |
| Crc.StepDivides | thirdparty/boost/boost/crc.hpp:727-751 | one step multiplies by x, lets the bit in at x^width and subtracts the generator exactly when the top term is there |
| Crc.TableEqualsSerial | thirdparty/boost/boost/crc.hpp:563-622 | for every message, width, polynomial, initial value, final mask and pair of reflection flags, the table-driven and the bit-at-a-time checksum agree |
| Crc.Refines | thirdparty/boost/boost/crc.hpp:944-966 | over a whole message the fast remainder keeps representing the slow one: same significant bits, or their mirror image |
| Crc.PlainStepMirrors | thirdparty/boost/boost/crc.hpp:602-621 | one byte of the unreflected table machine is eight steps of the serial one |
| Crc.ReflectedStepMirrors | thirdparty/boost/boost/crc.hpp:564-599 | one byte of the reflected machine is the mirror image of eight steps of the serial one |
| Crc.StepsLinear | thirdparty/boost/boost/crc.hpp:730-751 | bit-serial division is linear over GF(2), in the remainder and the bits together |
| Crc.StepsCancel | thirdparty/boost/boost/crc.hpp:730-751 | dividing a remainder's own top bits only shifts it |
| Crc.StepsByTable | thirdparty/boost/boost/crc.hpp:957-965 | dividing any number of bits is a shift plus what a zero remainder makes of the bits xored with the top ones |
| Crc.StepsLow | thirdparty/boost/boost/crc.hpp:822 | bits above the width never reach the significant ones |
| Crc.CrcBasic.ProcessBit | thirdparty/boost/boost/crc.hpp:727-751 | x times the old remainder plus the bit at x^width is the generator, or nothing, plus the new remainder |
| Crc.CrcBasic.ProcessBits | thirdparty/boost/boost/crc.hpp:753-770 | the low bits asked for are divided, upper ones first |
| Crc.CrcBasic.ProcessByte | thirdparty/boost/boost/crc.hpp:772-782 | a byte is divided in the order the input flag says |
| Crc.CrcBasic.ProcessBlock | thirdparty/boost/boost/crc.hpp:784-797 | bytes are divided one after the other |
| Crc.CrcBasic.Checksum | thirdparty/boost/boost/crc.hpp:814-823 | reflect, xor and mask; the object is unchanged |
| Crc.DivideByte | thirdparty/boost/boost/crc.hpp:507-528 | the inner loop leaves the remainder of the byte moved up by the width |
| Crc.InitTable | thirdparty/boost/boost/crc.hpp:488-536 | afterwards every byte's place holds that byte's entry, with either flag |
| Crc.CrcOptimal.constructor | thirdparty/boost/boost/crc.hpp:836-843 | the table is complete and the remainder is the (reflected) initial value |
| Crc.CrcOptimal.ProcessBlock | thirdparty/boost/boost/crc.hpp:944-966 | one lookup a byte runs the table machine; the table is untouched |
| Crc.CrcOptimal.Checksum | thirdparty/boost/boost/crc.hpp:984-995 | reflects only when the two flags differ |
| Crc.CrcOf | thirdparty/boost/boost/crc.hpp:1025-1040 | construction, processing and checksum together report the remainder of polynomial division, which is the bit-serial checksum |
| Crc.AugmentedCrc | thirdparty/boost/boost/crc.hpp:1045-1076 | the loop runs the machine that takes bytes in at the bottom |
| Crc.AugmentedEqualsSerial | thirdparty/boost/boost/crc.hpp:1045-1076 | for byte-sized widths, a message followed by width/8 zero bytes gives the plain checksum of the message, from any start value once that has been divided along |
| Crc.AugmentedFromZero | thirdparty/boost/boost/crc.hpp:1045-1076 | with a zero start it equals the table-driven checksum with zero initial value, no xor and no reflection |
| NumberTheory.GcdGreatest | thirdparty/boost/boost/rational.hpp:514 | every common divisor divides the gcd |
| NumberTheory.CoprimeIffGcd | thirdparty/boost/boost/rational.hpp:830-836 | being in lowest terms is the same as having gcd one |
| NumberTheory.Reduce | thirdparty/boost/boost/rational.hpp:854-857 | dividing by the gcd is exact and leaves coprime numbers |
| Rational.SumCancel | thirdparty/boost/boost/rational.hpp:495-508 | over the least common denominator, dividing by the gcd with `g` alone leaves lowest terms and the exact sum |
| Rational.DifferenceCancel | thirdparty/boost/boost/rational.hpp:531-538 | the same for the difference |
| Rational.CrossCancel | thirdparty/boost/boost/rational.hpp:550-554 | cancelling crosswise before multiplying leaves lowest terms and the exact product |
| Rational.Rational.Assign | thirdparty/boost/boost/rational.hpp:838-873 | any pair with a nonzero denominator becomes the same number in lowest terms; otherwise the object is untouched and the failure reported |
| Rational.Rational.AddAssign | thirdparty/boost/boost/rational.hpp:489-522 | exact sum, still in lowest terms with positive denominator, also when the argument is the object itself |
| Rational.Rational.SubtractAssign | thirdparty/boost/boost/rational.hpp:524-541 | exact difference in lowest terms, zero included |
| Rational.Rational.MultiplyAssign | thirdparty/boost/boost/rational.hpp:543-556 | exact product in lowest terms |
| Rational.Rational.DivideAssign | thirdparty/boost/boost/rational.hpp:558-585 | exact quotient in lowest terms with positive denominator; a zero divisor is reported and changes nothing |
| Rational.Rational.AddInteger | thirdparty/boost/boost/rational.hpp:266-271 | the sum with an integer needs no cancelling |
| Rational.Rational.SubtractInteger | thirdparty/boost/boost/rational.hpp:272-277 | nor does the difference |
| Rational.Rational.MultiplyInteger | thirdparty/boost/boost/rational.hpp:278-286 | exact product with an integer in lowest terms |
| Rational.Rational.DivideInteger | thirdparty/boost/boost/rational.hpp:287-307 | exact quotient by an integer in lowest terms; a zero divisor is reported and changes nothing |
| Rational.Rational.Equals | thirdparty/boost/boost/rational.hpp:823-828 | comparing fields decides equality of the numbers |
| Rational.Rational.Less | thirdparty/boost/boost/rational.hpp:739-821 | the continued-fraction comparison terminates and is true exactly when the first number is smaller, for all signs, lengths of expansion and equal values |
| Rational.Rational.LessInteger | thirdparty/boost/boost/rational.hpp:352-368 | comparing the floor with an integer decides the order |
| Rational.FirstDifference | thirdparty/boost/boost/rational.hpp:772-781 | at the first differing quotient the quotients decide, both ways |
| Rational.SameQuotient | thirdparty/boost/boost/rational.hpp:783-795 | behind equal quotients the reciprocals of the rests compare the other way round |
| Rational.LastQuotient | thirdparty/boost/boost/rational.hpp:786-816 | an expansion that has ended compares like an infinite quotient |
| Rational.LowestTermsUnique | thirdparty/boost/boost/rational.hpp:396-399 | a number has only one form in lowest terms |
| Rational.IsNormalizedExact | thirdparty/boost/boost/rational.hpp:387-409 | the recursive check, whose gcd follows C++ remainders and may be negative, accepts exactly the lowest-terms fractions |
| Engine.Run | src/nasdaq_exec/itch_exec.hpp:193-220 | a record answered false changes nothing |
| Engine.AddCodes | src/nasdaq_exec/itch_exec.hpp:197-201 | codes A and F, on any books: the reference joins the side it names unless it is there |
| Engine.TakeCodes | src/nasdaq_exec/itch_exec.hpp:203-209 | codes E, C and X: shares are taken modulo 2^32 from the order where it is found, buying side first, and it leaves at zero |
| Engine.DeleteCode | src/nasdaq_exec/itch_exec.hpp:211-212 | code D: the order leaves the side it is found on |
| Engine.ReplaceCode | src/nasdaq_exec/itch_exec.hpp:214-215 | code U: the order leaves and the new reference joins the same side unless it is there |
| Engine.OtherCodes | src/nasdaq_exec/itch_exec.hpp:217-218 | answered false are exactly all other codes, and those five kinds but adds with a reference on neither side |
| Engine.ReplayAppend | src/nasdaq_exec/nasdaq_exec.cpp:382-385 | replaying a feed in two parts is replaying it whole |
| Engine.ExecutionEngine.RunAddOrder | src/nasdaq_exec/itch_exec.hpp:133-138 | the order joins its side, unless the reference is there already |
| Engine.ExecutionEngine.ExecuteIn | src/nasdaq_exec/itch_exec.hpp:140-155 | shares go down modulo 2^32 and an emptied order leaves, exactly when the reference was found |
| Engine.ExecutionEngine.RunExecuteOrder | src/nasdaq_exec/itch_exec.hpp:157-166 | the buying side is taken from first, the selling side only when that had no such order; cancellations do the same |
| Engine.ExecutionEngine.RunDeleteOrder | src/nasdaq_exec/itch_exec.hpp:168-172 | one side loses the order, the buying side first |
| Engine.ExecutionEngine.RunReplaceOrder | src/nasdaq_exec/itch_exec.hpp:174-190 | the old order leaves and the new one joins the same side |
| Engine.ExecutionEngine.RunOrder | src/nasdaq_exec/itch_exec.hpp:193-220 | the dispatch realises the transition function, unknown types included |
| Ledger.RunRefinesPost | src/nasdaq_exec/itch_messages.hpp:475-480 | one permitted record keeps the engine equal to the live accounts of the ledger, and the answer says whether the account was live |
| Ledger.EngineRefinesLedger | src/nasdaq_exec/itch_messages.hpp:350-353 | over every valid feed the engine holds exactly the live accounts, each with what is left of it |
| Ledger.SidesDisjoint | src/nasdaq_exec/itch_exec.hpp:157-190 | after every valid feed no reference is on both sides |
| Ledger.ResidentExactly | src/nasdaq_exec/itch_messages.hpp:475-480 | an introduced order is resident exactly while nothing deleted or replaced it and less was taken than it came with; then it shows the difference, on the side it came in on |
| Ledger.ResidentWasIntroduced | src/nasdaq_exec/itch_messages.hpp:350-353 | nothing is resident that no add or accepted replace introduced |
| Ledger.PermittedExactly | src/nasdaq_exec/itch_messages.hpp:350-353 | what the ledger's premises ask of the next record, in terms of the feed and the book: references never introduced before, some shares, and no more taken than there is |
| Conservation.BalancedIffFits | src/nasdaq_exec/itch_exec.hpp:133-190 | on any book at all, one record conserves shares exactly when it fits the book: no clash of references, nothing taken that is not there |
| Conservation.FlowsByCode | src/nasdaq_exec/itch_exec.hpp:195-219 | which message codes count as introduced, executed, cancelled and dropped, and with how many shares |
| Conservation.SharesConserved | src/nasdaq_exec/itch_exec.hpp:133-190 | over every valid feed, shares introduced are those resident, executed, cancelled and dropped |
| Conservation.OverExecutionWraps | src/nasdaq_exec/itch_exec.hpp:146-150 | a concrete over-execution leaves an order of almost 2^32 shares |
| OrderBook.MakeBook | src/nasdaq_exec/itch_exec.hpp:223-242 | for every order the hash map may be walked in, the book has exactly the map's entries, ordered by price, then shares, then reference |
| OrderBook.BookUnique | src/nasdaq_exec/itch_exec.hpp:235-239 | a map has only one such book |
| OrderBook.SortAscending | src/nasdaq_exec/itch_exec.hpp:235 | sorting distinct entries gives a strictly ascending list |
| OrderBook.AscendingUnique | src/nasdaq_exec/itch_exec.hpp:38-41 | strictly ascending lists with the same members are equal |
| OrderBook.CollapseBook | src/nasdaq_exec/itch_exec.hpp:263-287 | whatever book goes in, the lines come out in strictly ascending order of price, each once, and hold what merging the entries in turn gives |
| OrderBook.CollapseSums | src/nasdaq_exec/itch_exec.hpp:274-284 | on a book whose equal prices stand together the merge has exactly the book's prices, each with its shares summed modulo 2^32 |
| OrderBook.NewPriceComesLast | src/nasdaq_exec/itch_exec.hpp:280-283 | in a sorted book each new price is above every line there is, so the hint is right and lines are only ever appended |
| OrderBook.GroupedExactly | src/nasdaq_exec/itch_exec.hpp:274-284 | for a given run of prices the merge adds up the shares, whatever they are, exactly when equal prices stand together |
| OrderBook.AscendingIsGrouped | src/nasdaq_exec/itch_exec.hpp:38-41 | a sorted book is such a book |
| OrderBook.UnsortedLosesShares | src/nasdaq_exec/itch_exec.hpp:276-283 | on an unsorted book the merge forgets shares |
| PriceLevels.CollapsedBookOf | src/nasdaq_exec/nasdaq_exec.cpp:394-407 | for every walk order, collapsing the book of an order map gives a line for exactly every price in the map, prices strictly ascending, each with the sum of the map's shares at it modulo 2^32 |
| PriceLevels.CollapsedLevels | src/nasdaq_exec/itch_exec.hpp:263-287 | the same of any sorted book of the map and the lines merged from it |
| PriceLevels.BookSums | src/nasdaq_exec/itch_exec.hpp:223-242 | the shares at a price in the book are those in the map, which do not depend on the order it is summed in |
| PriceLevels.LevelsUnique | src/nasdaq_exec/itch_exec.hpp:263-287 | a map has only one such list of lines |
| EngineState.SerializeInteger | src/nasdaq_exec/itch_exec.hpp:50-57 | the little-endian bytes are put at the cursor and nowhere else, and cursor and length move by the width |
| EngineState.SerializeOrderMap | src/nasdaq_exec/itch_exec.hpp:70-80 | count and entries are written in walk order, moving by exactly the serialized size |
| EngineState.SerializeState | src/nasdaq_exec/itch_exec.hpp:289-301 | the buffer is filled to the last byte and the length counter ends at zero |
| EngineState.WalkLength | src/nasdaq_exec/itch_exec.hpp:106-109 | as many entries are walked as the map has, so the size computed beforehand is right |
| EngineState.EntrySpelled | src/nasdaq_exec/itch_exec.hpp:74-79 | the sixteen bytes of an entry, one by one: reference, price, shares, little-endian |
| EngineState.MapSpelled | src/nasdaq_exec/itch_exec.hpp:70-80 | the bytes of a map: the number of its orders, then entry by entry in walk order |
| EngineState.StateSpelled | src/nasdaq_exec/itch_exec.hpp:289-301 | the buying map's bytes, then the selling map's, and nothing else |
| EngineState.DeserializeInteger | src/nasdaq_exec/itch_exec.hpp:59-68 | fails exactly when bytes are missing, and then moves nothing |
| EngineState.DeserializeOrderMap | src/nasdaq_exec/itch_exec.hpp:82-104 | result, partial map and cursor are those of the parsing function, on all inputs |
| EngineState.DeserializeState | src/nasdaq_exec/itch_exec.hpp:303-307 | the same for both maps; a failure leaves what had been read in the engine |
| EngineState.MapExactly | src/nasdaq_exec/itch_exec.hpp:82-104 | on arbitrary bytes, reading a map succeeds exactly when the count and that many entries are there, and consumes exactly those |
| EngineState.EntriesRead | src/nasdaq_exec/itch_exec.hpp:90-101 | the map read, also by a failing read, has exactly the references of the complete entries, each with an order one of them gives |
| EngineState.MapRoundTrip | src/nasdaq_exec/itch_exec.hpp:70-104 | a map written in any walk order is read back whole and the bytes behind it are left |
| EngineState.StateRoundTrip | src/nasdaq_exec/itch_exec.hpp:289-307 | reading what was written restores both maps, whatever the engine held before and whatever follows |
| EngineState.StateExtend | src/nasdaq_exec/itch_exec.hpp:303-307 | a successful read does not depend on the bytes it leaves |
| EngineState.PrefixRejected | src/nasdaq_exec/itch_exec.hpp:303-307 | every strict prefix of a serialized state is rejected |
| IsoTime.DaysCount | src/utils/stringify.cpp:76 | day numbers start at the epoch and go up by one from each date to the next, through months, leap days and years |
| IsoTime.IsoTextSpelled | src/utils/stringify.cpp:14-42 | the text of an instant, character by character |
| IsoTime.ParseFormatted | src/utils/stringify.cpp:14-77 | parsing a formatted instant gives it back, except for the epoch itself, which reads as failure |
| IsoTime.ClockLess | src/utils/stringify.cpp:23-30 | the text order of two times of day is their order |
| IsoTime.FloorStays | src/nasdaq_exec/nasdaq_exec.cpp:193-198 | flooring goes down by less than 900 seconds to a multiple of 900, never leaves the day, and is the identity exactly on quarter hours |
| IsoTime.KeyIsAt | src/nasdaq_exec/nasdaq_exec.cpp:200-206 | the key of an instant is the key of its quarter hour and carries the day's prefix |
| IsoTime.KeySpelled | src/nasdaq_exec/nasdaq_exec.cpp:200-216 | a key is the stock, a fixed word and the text of its quarter hour; the day's prefix goes up to the letter before the time |
| IsoTime.KeyOrder | src/nasdaq_exec/nasdaq_exec.cpp:229-235 | within a day `strcmp` on keys is the order of instants, and keys are equal only for equal instants |
| IsoTime.UnderscoreBefore | src/nasdaq_exec/nasdaq_exec.cpp:238-239 | the last underscore is the one before the time, whatever the stock is called |
| IsoTime.KeySuffix | src/nasdaq_exec/nasdaq_exec.cpp:258-261 | the text after it parses to exactly the instant of the key |
| Snapshot.RangeIsStretch | src/nasdaq_exec/nasdaq_exec.cpp:362-373 | a range of a sorted table is one stretch of it, in order: exactly the rows with their time in it |
| Snapshot.RangeSplit | src/nasdaq_exec/nasdaq_exec.cpp:362-373 | consecutive half-open ranges of a time-ordered table join without loss or repetition |
| Snapshot.CatchUp | src/nasdaq_exec/nasdaq_exec.cpp:362-385 | replaying from any state of the day gives the later state of the day |
| Snapshot.RestoreSnapshot | src/nasdaq_exec/nasdaq_exec.cpp:208-262 | result and engine state are those of the restoring function, on every store and failure path |
| Snapshot.CapNeverReached | src/nasdaq_exec/nasdaq_exec.cpp:221 | a day has at most 96 snapshots, so the query's limit of 100 hides none |
| Snapshot.ScanLatest | src/nasdaq_exec/nasdaq_exec.cpp:227-235 | the key scan selects the latest stored quarter hour not after the request |
| Snapshot.ScanNothing | src/nasdaq_exec/nasdaq_exec.cpp:227-235 | it selects nothing exactly when nothing was stored at or before the request |
| Snapshot.RestoreSound | src/nasdaq_exec/nasdaq_exec.cpp:208-262 | from a sound store it gives the latest snapshot and the state of the day at that instant, or leaves the engine empty, or meets the null `match` |
| Snapshot.RunProgram | src/nasdaq_exec/nasdaq_exec.cpp:352-390 | the program from restoring to storing is one step of the run relation |
| Snapshot.StoresExactly | src/nasdaq_exec/nasdaq_exec.cpp:387-390 | a run changes a sound store exactly when it asks for snapshots, completes, its quarter hour is not the zero time nor stored yet, and a row lies between the latest stored instant (or the start of the day) and its own |
| Snapshot.StoresPrinted | src/nasdaq_exec/nasdaq_exec.cpp:264-271 | what it then stores under the quarter hour reads back as the books it prints, and nothing else changes |
| Snapshot.QuarterStored | src/nasdaq_exec/nasdaq_exec.cpp:387-390 | after a completed run at a quarter hour that is stored exactly when it was before or there was a row to replay |
| Snapshot.RunShowsTheDay | src/nasdaq_exec/nasdaq_exec.cpp:352-390 | from a sound store a run, at any instant, shows the state of replaying the whole day, unless it meets the null `match`, which is exactly when the day has snapshots but none by then |
| Snapshot.AlignedRunKeepsSound | src/nasdaq_exec/nasdaq_exec.cpp:264-271 | a run at a quarter hour leaves a sound store sound |
| Snapshot.HistoryStaysSound | src/nasdaq_exec/nasdaq_exec.cpp:352-390 | over any sequence of runs asking at harmless instants (quarter hours, or the first one of 1970) every store stays sound |
| Snapshot.HistoryShowsTheDay | src/nasdaq_exec/nasdaq_exec.cpp:352-390 | and each of those runs shows what replaying the whole day gives, unless it meets the null `match`, exactly when the day has snapshots but none by then |
| Snapshot.HistoriesRightExactly | src/nasdaq_exec/nasdaq_exec.cpp:352-390 | for any set of instants to ask at: every run of every history on every table shows the day or meets the null `match`, exactly when all the instants are harmless |
| Snapshot.StoredStays | src/nasdaq_exec/nasdaq_exec.cpp:264-271 | no run of a history removes a snapshot |
| Snapshot.HistoryFinds | src/nasdaq_exec/nasdaq_exec.cpp:352-390 | once an instant is stored, every later request at or after it goes on from the latest snapshot, at or after that instant, with the state of the day then; at the instant itself it finds just that one and leaves the store alone |
| Snapshot.UnalignedRunSpoils | src/nasdaq_exec/nasdaq_exec.cpp:264-271 | at any other instant a concrete table and an empty store make an unsound store |
| Snapshot.RepeatedRunMisled | src/nasdaq_exec/nasdaq_exec.cpp:362-390 | the same run made again on that store prints a book that is not the day's: what happened since the quarter hour is replayed twice |
| Snapshot.AlignedRunMisled | src/nasdaq_exec/nasdaq_exec.cpp:362-390 | so does a run at the quarter hour itself, which finds an order that was only added later |
| Snapshot.FirstQuarterStoresNothing | src/nasdaq_exec/nasdaq_exec.cpp:387-390 | in the first quarter hour of 1970 nothing is stored |
| Snapshot.SoundExactlyAtQuarters | src/nasdaq_exec/nasdaq_exec.cpp:264-271 | runs at an instant leave every sound store sound, for every table, exactly when the instant is harmless |
| Wire.StampIsBigEndian | src/nasdaq_exec/itch_messages.hpp:80-99 | the zero-extended, shifted and swapped word is the 48-bit big-endian number |
| Wire.FieldsWhereDocumented | src/nasdaq_exec/itch_messages.hpp:182-216 | for each of the eleven types, what is decoded for each row of its message table: the big-endian number, the character or the lowered text at the documented offset and length |
| Wire.KnownExactly | src/nasdaq_exec/itch_messages.hpp:1087-1099 | the decoded types are exactly the eleven documented ones, with the documented sizes |
| Wire.LoadIsBigEndian | src/nasdaq_exec/itch_messages.hpp:43-52 | a native little-endian load of any width followed by a byte swap is the big-endian number |
| Wire.DecodeField | src/nasdaq_exec/itch_messages.hpp:24-52 | each field decoder, loading and swapping as the source does, gives the meaning of the bytes at the cursor and moves by their number |
| Wire.DecodeFields | src/nasdaq_exec/itch_messages.hpp:387-403 | the fields are read one after the other, each from where the one before ended |
| Wire.Decode | src/nasdaq_exec/itch_messages.hpp:387-409 | succeeds exactly when the whole message is there, with the documented value in every row; otherwise it moves nothing |
| Wire.ReadMessage | src/nasdaq_exec/itch_messages.hpp:1064-1073 | queue, counters and cursor after a known message, also when its decoding fails |
| Wire.ReadNextMessage | src/nasdaq_exec/itch_messages.hpp:1075-1112 | answer, cursor, counters and queue of one read, on all bytes |
| Wire.ReadCases | src/nasdaq_exec/itch_messages.hpp:1075-1112 | one read in terms of the bytes: when it answers, where the cursor ends, what is counted and queued, also for short input and for frames longer or shorter than their type |
| Wire.ReadStream | src/nasdaq_exec/itch_messages.hpp:1075-1112 | reading until the answer is false terminates on all bytes and realises the reading function |
| Wire.LoweringFolds | src/nasdaq_exec/itch_messages.hpp:32-41 | a lowered text has no capitals, only letters moved, and lowering it again changes nothing |
| Wire.FieldRoundTrip | src/nasdaq_exec/itch_messages.hpp:24-52 | a field decodes to what was encoded, letters of texts lowered |
| Wire.FieldsRoundTrip | src/nasdaq_exec/itch_messages.hpp:387-403 | so does any list of fields, whatever bytes follow |
| Wire.FieldsReencode | src/nasdaq_exec/itch_messages.hpp:387-403 | the other way: whatever the bytes, what is decoded fits its fields, and encoding it gives the bytes back but for the capitals of texts |
| Wire.ReadIsWellFormed | src/nasdaq_exec/itch_messages.hpp:1064-1073 | every message read from any bytes is one the encoder could have written, and its bytes were those but for capitals |
| Wire.FrameRoundTrip | src/nasdaq_exec/itch_messages.hpp:1075-1112 | one well-formed frame is decoded or skipped and the cursor ends at the next one |
| Wire.StreamRoundTrip | src/nasdaq_exec/itch_messages.hpp:1075-1112 | any concatenation of well-formed frames is consumed to the last byte, the decoded messages queued in order |
| Wire.CountersAddUp | src/nasdaq_exec/itch_messages.hpp:1070-1071 | read and skipped add up to the frames, loaded to the payload of the decoded ones, read to the queued messages |
| Wire.LengthMustAgree | src/nasdaq_exec/itch_messages.hpp:1075-1090 | after a frame of a known type the cursor is at the next frame exactly when the declared length is the type's |
| Quotes.FillEncloses | src/simulator/quote_generator.hpp:20-65 | for any draws, every cell ends positive, the first unchanged, and the returned pair encloses all cells as they end although shared midpoints and the last cell are overwritten |
| Quotes.FillOfFour | src/simulator/quote_generator.hpp:34-61 | on four cells, the four draws in order, each with its generation, its neighbours and the cell it sets |
| Quotes.QuoteGenerator.FillValues | src/simulator/quote_generator.hpp:20-65 | the in-place recursion computes the filling function on its range, touches nothing outside, and meets its own assertions in every recursive call |
| Quotes.QuoteGenerator.DrawMiddle | src/simulator/quote_generator.hpp:28-42 | the middle cell is the average of the ends plus the offset over the generation, or 0.01 if that is more; the pair is the least and greatest of the three |
| Quotes.QuoteGenerator.FillFirstPart | src/simulator/quote_generator.hpp:47-53 | the part up to the middle is filled, the cells after it are left |
| Quotes.QuoteGenerator.FillSecondPart | src/simulator/quote_generator.hpp:55-61 | the part from the middle on is filled, the cells before it are left |
| Quotes.QuoteGenerator.Quote | src/simulator/quote_generator.hpp:68-82 | the series starts at the last quote, every price is positive, and low and high enclose open, close and every price |
| Timespec.Timespec.FromDuration | src/utils/timespec.hpp:39-44 | cutting a duration toward zero loses nothing, and gives the normal stamp of its total exactly when it is not negative or a whole second |
| Timespec.Timespec.AddAssign | src/utils/timespec.hpp:70-81 | no nanosecond is lost for any operands; the result is normal exactly when the nanosecond sum is not negative or a whole second |
| Timespec.Timespec.SubtractAssign | src/utils/timespec.hpp:83-118 | the total becomes the difference or zero, in normal form; the source's assertions hold |
| Timespec.OrderIsTotal | src/utils/timespec.hpp:120-128 | the comparisons are the order on total nanoseconds |
| Timespec.DeltaIsMetric | src/utils/timespec.hpp:130-138 | `delta` is the distance of the totals: symmetric, zero only on equal stamps, and triangular |
| Timespec.AddThenSubtract | src/utils/timespec.hpp:70-118 | adding a duration and taking it off again changes nothing |
| Timespec.SubtractThenAdd | src/utils/timespec.hpp:70-118 | the other order changes nothing exactly when nothing was cut off at zero |
| Generator.WeekdaysFollow | src/generator/generator.cpp:330-334 | the epoch is a Thursday, days of the week follow each other, and all but Saturday and Sunday are weekdays |
| Generator.SkipWeekend | src/generator/generator.cpp:327-339 | stops at the first weekday from the day on |
| Generator.IterationsCount | src/generator/generator.cpp:267-273 | the number of rows is at most the maximum and at least nine tenths of it, and exactly it below twenty |
| Generator.ErrorsClosedForm | src/generator/generator.cpp:352-369 | how many of the first rows of a day are errors, in each of the three cases |
| Generator.ErrorsExact | src/generator/generator.cpp:352-369 | for every number of rows a day may have, the middle day has min(errors, rows) error rows and other days none |
| Generator.GenerateDay | src/generator/generator.cpp:394-420 | the inner loop's rows are increments apart from nine o'clock, errors where the rule says |
| Generator.GenerateTransactionLog | src/generator/generator.cpp:371-434 | one batch for each of the first `days` weekdays of the year, with the right rows and number of errors |
| Generator.SpacedInSession | src/generator/generator.cpp:400-409 | rows spaced by the truncated increment stay before five o'clock |
| Generator.RowsInSession | src/generator/generator.cpp:385-420 | every row of the log lies on a weekday, at nine plus its number of increments of eight hours over the iterations, before five |
| Generator.NoWeekdayMissed | src/generator/generator.cpp:385-389 | no weekday is left out before the first batch or between two |
| Generator.LogInOrder | src/generator/generator.cpp:385-420 | times never decrease over the whole log; they strictly increase from day to day, and within a day exactly when there is a nanosecond for every iteration |

## Left out

- The database: `qdb_*` calls, blobs and tables are a map from key to bytes and a sequence of timed rows, with the three premises named above; connection errors are not modelled.
- Building the rows from the table's columns, original references included (src/nasdaq_exec/nasdaq_exec.cpp:124-180).
- Floating point: prices enter the engine and the decoder as the integers they are made from or to, and the quote generator works over exact reals.
- Random engines and distributions: the generator's row count is any number in its range, and the quote generator's offsets are any sequence of draws.
- Volumes, agents, counterparties and securities of the trading log, which only add columns to a row.
- Hash maps and flat maps are Dafny maps; the walk order of a hash map is a parameter.
- The sorted vector inside a flat map: where a new line goes is searched from the end.
- `std::sort` is modelled by insertion sort, whose result is the only strictly ascending arrangement.
- The integer gcd is Euclid's algorithm; Boost's implementation of it is not part of this model.
- Overflow of fixed-width types in rationals, time stamps and status counters; the second throw of `normalize` (rational.hpp:869-870) can only come from it.
- `gmtime` and `timegm` are the calendar formula of `IsoTime.DaysFromCivil`, taken within one valid day; dates before 1970 and signs in parsed digit groups are not modelled.
- `Snapshot.RunProgram`: the times of a run are whole seconds of one day, as the program's argument gives them.
- Corrupt snapshots in a store: `Snapshot.RestoreSnapshot` covers them, the theorems about histories start from a sound store, such as an empty one.
- `EngineState.DeserializeOrderMap`: the reservation of memory for the announced number of entries may fail in the source.
- `Wire.Decode`: the eleven `decode` methods are one method over a table of field lists, and the skipped types are not decoded in the source either.
- `Wire.ReadStream`: stops where the source would read a message code behind the last byte, after a frame of length zero at the end.
- `Wire.ReadMessage`: the unfilled message that a failed decoding still queues has no contents here; waiting on a full queue is some number of failed attempts.
- Text bytes above 127, on which lowering depends on the locale.
- Big-endian hosts.
- `Crc.InitTable`: the flag that makes it run only once; running it again would write the same table.
- `Crc.AugmentedCrc`: widths below 8, for which the shift in the source is negative.
- `Quotes.QuoteGenerator.Quote`: fewer than two prices, which the source's assertion excludes.
- The rest of the simulator (quote records, brokers, traders), threads, options, printing, the terminal code and the rest of Boost.
