# What the funny runtime's C code promises, proved

A Dafny model of the native runtime under `native/`: its unbounded integers and
exact float printing, its garbage collector, its insertion-ordered map, its
worker threads and mailboxes, its event loop, and the copiers, parsers and
printers around them. Code that fills arrays and updates fields is modelled by
methods over arrays and classes, each proved against a specification; what the
source promises about that specification is proved in lemmas beside it.
`dafny verify dfyconfig.toml` checks the project.

| files | what they model |
|---|---|
| `Limbs`, `Bits`, `Bignum`, `Shifting`, `Division`, `BignumBits`, `DecimalText`, `BignumText` | `bignum.c`: base-2^32 limbs, Algorithm D of Knuth's *The Art of Computer Programming*, Volume 2, section 4.3.1, two's-complement bit operations, shifts, powers, decimal text |
| `Numfmt`, `FloatText`, `Doubles`, `Shortest` | `numfmt.c`: a double as an exact fraction, its decimal exponent, p correctly rounded digits, and the text that reads back |
| `Gc` | `gc.c`: mark and sweep over an intrusive list |
| `Groupchat` | `groupchat.c`: a map in insertion order and the index over its string keys |
| `Interns`, `Mail` | `interns.c`: the life of worker threads, and mail between VMs, as steps of many threads |
| `EventLoop` | `loop.c`, `otw.c`: settle-once values and the loop over tasks |
| `Frames` | `frames.c`, `task.c`, and of `vm.c` what captures, closes and retires: upvalues across task switches, returns and finished tasks |
| `Portable` | `portable.c`: deep copies between heaps |
| `Json`, `JsonNumbers`, `JsonGrammar`, `JsonLayout`, `JsonAccepts`, `JsonRoundTrip`, `JsonFloats`, `JsonParser`, `JsonWriter` | `json.c`: the reader and the writer over the heap, both against the grammar of RFC 8259, how text is laid out, and reading back what was written, floats included |
| `Utf8`, `Blob` | `da_string.c`, `blob.c`: UTF-8 (sections 3 and 4 of RFC 3629), base64 (section 4 of RFC 4648), hex, split and join |
| `Modules`, `ModuleLoader` | `modules.c`: what a quoted import names, and running each module once |
| `Trails`, `Wrappers` | walking over containers that may hold themselves, and a value that may be missing |

## How it is modelled

- Machine integers are subset types of `int` (`Limb`, `U64`, `I64`), so the
  intermediates of the limb arithmetic are shown not to wrap; where the source
  narrows an int64 to an int (`BignumBits.ToInt32`) the narrowing is modelled.
  Multiplying by a power
  of the base is a recursive function (`Up`, `Twice`, `Shift`), never a product
  of two unknowns.
- A method that answers `ok` is false exactly where the source would leave its
  arrays; what happens then is not modelled.
- Threads are interleaved steps. In `Interns` and `Mail` a step that would touch
  freed memory, join a thread twice or release what a running worker uses is a
  `Fault`, and no run reaches one.
- The outside world is a parameter: the children of a heap object, the hash of
  a string, equality of keys that are not strings, what `strtod` answers, the
  floating-point guess in `compute_dec_exp`, sockets and clocks (`World`), what a
  task does when it is resumed (`Event`) and what a module's top level does
  (`code`). What is proved holds whatever these are, or under the one
  assumption named: `CorrectlyRounds` for `strtod`.

## Where the code and its comments differ

The model follows the code in each case.

- `bignum.c:571` and `bignum.c:593` narrow `shift / 32` to an int. 5 shifted right by
  2^37 stays 5, and at 2^36 the count is negative (`BignumBits.CountsWrap`). A right
  shift is floor(a / 2^shift) if and only if `BignumBits.ShiftsRight` holds, and a left
  shift is a * 2^shift if and only if `BignumBits.ShiftsLeft` does.
- `bignum.c:665` sets aside `count + 2` chunks of nine digits. They are enough if and
  only if the number is below 10^(9 * (count + 2)) (`BignumText.ToDecimalString`), as
  every number of up to 28 limbs is (`BignumText.ShortNumbersPrint`) and 2^927 is not
  (`BignumText.LongNumberOverruns`).
- `numfmt.c:8-16` argues that the text printed for a double is the shortest that
  reads back. It is if and only if no candidate of up to sixteen digits misses before
  one is near enough (`Shortest.PrintedIsShortestIff`): below a power of two the gap is
  half as wide, and there the candidate can be too low while the next decimal still
  reads back. 2^-44 is printed with seventeen digits although 5.684341886080802e-14, of
  sixteen, reads as it (`Shortest.LongerThanNeeded`).
- `groupchat.c:255-262` empties the entries and keeps the index. The map is in
  order afterwards if and only if no string key was in an index
  (`Groupchats.Groupchat.Clear`); otherwise every such key is still found
  (`Groupchats.Groupchat.ClearThenFind`), as after clearing any twelve string keys
  (`Groupchats.ClearedMapRemembers`). Setting one writes to its old entry and leaves
  the map empty, and removing one finds nothing (`Groupchats.Groupchat.ClearThenSet`,
  `Groupchats.Groupchat.ClearThenRemove`). New string keys take the index's empty
  slots, which nothing gives back: once as many are set as there are, the index is full
  unless it was made larger on the way, and then looking for a new key never ends
  (`Groupchats.Groupchat.ClearThenFill`), as with twelve keys, cleared, and twenty
  others (`Groupchats.TwelveThenTwenty`). `groupchat.c:86` relies on an empty slot.
- `interns.c:666-692` wakes for finished workers only: it can sleep while mail is
  waiting (`Mail.WaitAnySleepsOnMail`). `interns_wait_for_mail` cannot
  (`Mail.NoMailMissed`).
- `loop.c:232-353` answers false when nothing is coming any more. A message can have
  come after the pass over the mailbox waits had looked, from a worker that is done
  when it is asked whether mail can come: its reader is told that nothing will come,
  with the message in its inbox (`EventLoop.MailLeftUnread`). Exactly when that happens
  is `EventLoop.MailTooLate` (`EventLoop.Vm.LookOutside`). While something is still
  behind somebody's wait, the loop sleeps in `interns_wait_any` with such a message in
  the inbox, exactly where `EventLoop.MailSleptOn` says (`EventLoop.Vm.WakeWaiters`,
  `EventLoop.MailSleptThrough`); and a finished intern that nobody has awaited keeps
  that call from sleeping at all.
- `loop.c:337-344` waits a fixed 25 ms when Ctrl-C is the only thing besides
  deadlines: the sleep goes past a deadline if and only if that is so and a deadline is
  nearer than that (`EventLoop.Vm.Block`, `EventLoop.Oversleeps`).
- `task.c` and `vm.c:733-750` free a finished task's stack. Every upvalue of it is closed
  by then, unless the task ended by `dip`, which `vm.c:1254-1261` unwinds nothing for
  (`Frames.ClosedBeforeFreed`). A local captured by such a task stays open with its
  stack freed (`Frames.DipLeavesOpen`).
- `da_string.h:8-13` calls a string ASCII when it has as many code points as bytes. That
  is so if and only if no byte but the last leads a longer sequence
  (`Utf8.AsManyAsBytes`), as for the single byte 0x80 too (`Utf8.StrayByteCounts`); and
  exactly then is every code point at the byte of its number (`Utf8.FlagIsForOffsets`),
  which the flag is for.
- `json.c:210-213` says it takes exactly the number grammar of section 6 of RFC 8259.
  What it takes is a number of that grammar if and only if no spare zero is in front
  (`JsonNumbers.AcceptsGrammarIff`); 01 is read as 1 (`JsonNumbers.LeadingZeroIsRead`).
- `json.h:14-22` maps values to JSON. A yapstring can hold bytes that are no UTF-8, as from
  `filez.c:250`, and they are written as they are: what is written is JSON text if and
  only if no string in the value has any (`JsonGrammar.SpilledIsJson`).
- `modules.c:68-106` stops reading when 64 segments are pending. The name leads where
  the path leads if and only if fewer ever are while there is more to read, or what is
  left unread leads back (`ModulePaths.LeadsThereIff`); of a path of 65 names it does not
  (`ModulePaths.SixtyFiveAreCut`).

## Model

| member | source | states |
|---|---|---|
| `Bignums.FromInt64` | `native/bignum.c:73-86` | a canonical number of exactly that value, the most negative int64 included |
| `Bignums.ToInt64` | `native/bignum.c:109-125` | fits if and only if the value is an int64, and then it is that value |
| `Bignums.Compare` | `native/bignum.c:94-107` | the sign of the difference of the two integers |
| `Bignums.MagAdd` | `native/bignum.c:137-159` | the sum of the magnitudes, with no top zero limb |
| `Bignums.MagSub` | `native/bignum.c:162-179` | the difference of the magnitudes, with no top zero limb |
| `Bignums.MagMul` | `native/bignum.c:181-203` | the product of the magnitudes; no 64-bit intermediate overflows |
| `Bignums.Add` | `native/bignum.c:219-242` | the sum of the integers, in canonical form, for all signs |
| `Bignums.Sub` | `native/bignum.c:244-249` | their difference |
| `Bignums.Abs` | `native/bignum.c:213-217` | the absolute value |
| `Bignums.Mul` | `native/bignum.c:251-256` | their product |
| `Bignums.Pow` | `native/bignum.c:465-484` | repeated squaring gives base to the exp |
| `Shifting.ShlBits` | `native/bignum.c:283-298` | the limbs times 2^s, writing no limb but those it returns |
| `Shifting.ShrBits` | `native/bignum.c:304-314` | the limbs divided by 2^s, rounded down |
| `Division.MagDivmodSmall` | `native/bignum.c:264-272` | quotient and remainder by one limb, also when the quotient overwrites the dividend |
| `Division.FirstGuess` | `native/bignum.c:345-351` | the first qhat is never too small |
| `Division.TooBig` | `native/bignum.c:352-355` | the correction loop only lowers a qhat that is too big |
| `Division.AtMostOneTooBig` | `native/bignum.c:352-355` | once the loop stops, qhat is at most one too big |
| `Division.EstimateQhat` | `native/bignum.c:345-355` | qhat fits a limb, is not too small, and at most one too big |
| `Division.MulSub` | `native/bignum.c:357-369` | the window less qhat times the divisor, and whether that went negative |
| `Division.AddBack` | `native/bignum.c:371-381` | the window plus the divisor, at most one carry dropped |
| `Division.KnuthStep` | `native/bignum.c:344-383` | one turn leaves the window its remainder, below the divisor: one add-back suffices |
| `Division.KnuthLoop` | `native/bignum.c:344-383` | u == q * v + the remainder left in u, which is below v |
| `Division.MagDivmodKnuth` | `native/bignum.c:317-405` | for a divisor of two or more limbs, a == q * b + r and r < b |
| `Division.DivmodTrunc` | `native/bignum.c:426-443` | refuses zero only; otherwise a == b * q + r, \|r\| < \|b\|, r with a's sign |
| `Division.DivmodFloor` | `native/bignum.c:445-461` | refuses zero only; otherwise a == b * q + r, \|r\| < \|b\|, r with b's sign |
| `BignumBits.ToTwosComplement` | `native/bignum.c:488-506` | with one limb more than the number, limbs that mean it in two's complement |
| `BignumBits.FromTwosComplement` | `native/bignum.c:508-529` | the integer that two's-complement limbs mean, the most negative included |
| `BignumBits.BitwiseOp` | `native/bignum.c:531-555` | every bit, for ever, is the operation on the operands' bits of infinite two's complement |
| `BignumBits.BitwiseNot` | `native/bignum.c:557-565` | every bit is the opposite of the operand's |
| `BignumBits.ShiftLeft` | `native/bignum.c:569-588` | a * 2^n with n the count as narrowed to an int; it is a * 2^shift exactly where ShiftsLeft says, and leaves its arrays exactly where LeftFits fails |
| `BignumBits.ShiftRight` | `native/bignum.c:590-618` | floor(a / 2^n), for negative a too, n being the narrowed count; it is floor(a / 2^shift) exactly where ShiftsRight says, and leaves its arrays exactly where RightFits fails |
| `BignumBits.RightExact` | `native/bignum.c:590-605` | with a narrowed count that is not negative the floor is the same if and only if nothing was narrowed or nothing is left of a either way |
| `BignumBits.LeftExact` | `native/bignum.c:569-578` | the product is the same if and only if nothing was narrowed, or a is 0 |
| `BignumBits.CountsWrap` | `native/bignum.c:569-601` | 5 shifted right by 2^37 is 5 and 1 shifted left by it 1; at 2^36 both leave their arrays |
| `Bits.BitIsFloor` | `native/bignum.c:488-565` | bit i of x is floor(x / 2^i) mod 2 |
| `Bits.BitsDetermine` | `native/bignum.c:488-565` | two integers with the same bits are equal: the bits say all of the result |
| `BignumText.FromDigits` | `native/bignum.c:622-649` | null if and only if the digits are none or not of the base; otherwise what they spell |
| `BignumText.TakeChunks` | `native/bignum.c:665-674` | the chunks fit their array if and only if the number is below 10^(9 * its length), and then spell the number |
| `BignumText.ToDecimalString` | `native/bignum.c:651-693` | the sign and the decimal digits of the value, if and only if the chunks fit the room set aside for them |
| `BignumText.ShortNumbersPrint` | `native/bignum.c:663-671` | up to 28 limbs they always fit |
| `BignumText.LongNumberOverruns` | `native/bignum.c:663-671` | for 2^927, of 29 limbs, they do not |
| `BignumText.PrintThenRead` | `native/bignum.c:622-693` | the digits of any integer read as that integer |
| `DecimalText.DecimalMeans` | `native/bignum.c:651-693` | the digits printed mean the number, with no leading zero |
| `DecimalText.DecimalUnique` | `native/bignum.c:651-693` | no other digits without a leading zero do |
| `DecimalText.DigitIsPlace` | `native/bignum.c:626-633` | a digit is worth its place among 0 to 9 and a to f, or A to F, and nothing else is one |
| `Numfmt.CompareToPowerOfTen` | `native/numfmt.c:78-97` | compares num/den with 10^exp, for exponents of either sign |
| `Numfmt.ComputeDecExp` | `native/numfmt.c:110-124` | from any guess whatever, ends with 10^e <= num/den < 10^(e+1) |
| `Numfmt.DecExpUnique` | `native/numfmt.c:110-124` | there is one such e |
| `Numfmt.RoundDiv` | `native/numfmt.c:127-148` | a / b rounded half to even |
| `Numfmt.HalfEvenIsNearest` | `native/numfmt.c:127-148` | which is within half of the quotient, and even at a tie |
| `Numfmt.RoundToPDigits` | `native/numfmt.c:154-191` | p digits and an exponent in the buffer, for a significand that prints |
| `Doubles.CandidateFits` | `native/numfmt.c:256-262` | which that of a candidate always does |
| `Numfmt.SignificandRange` | `native/numfmt.c:150-191` | the rounded significand is nearest, and between 10^(p-1) and 10^p |
| `Numfmt.DigitsAreExact` | `native/numfmt.c:166-191` | p digits exactly, the first not zero, of that very value: no padding, and a digit dropped after a carry is 0 |
| `Numfmt.ClosestDecimal` | `native/numfmt.c:150-191` | no decimal of p digits and any exponent is closer; at a tie with another the significand is even |
| `FloatText.FormatDigits` | `native/numfmt.c:196-242` | writes the text of the digits that FormattedNotation and FormatReads are about |
| `FloatText.FormattedFits` | `native/numfmt.c:193-242` | with up to seventeen digits and an exponent of up to four the text has at most 25 characters, of the 64 there is room for |
| `FloatText.FormatReads` | `native/numfmt.c:193-242` | a decimal reader finds in that text the sign and the value of the digits |
| `FloatText.FormattedNotation` | `native/numfmt.c:193-242` | that text is without an exponent if and only if the number it says is from 10^-4 up to 10^16: digits, a point and digits, no spare zero in front; and otherwise one digit from 1 to 9, others behind a point if there are any, and a signed exponent of two digits or more |
| `FloatText.ExponentIff` | `native/numfmt.c:193-242` | such text has an e exactly outside that range, and otherwise one point, between digits |
| `Doubles.DoubleToFraction` | `native/numfmt.c:42-75` | the numerator and denominator of every double, its exponent in one or the other, subnormals included |
| `Doubles.FractionIsExact` | `native/numfmt.c:42-75` | that fraction is the double exactly |
| `Doubles.TextFits` | `native/numfmt.c:196-271` | the text of every candidate of every double fits that buffer |
| `Doubles.RelativeSpacing` | `native/numfmt.c:256-276` | two doubles are at least one part in 2^53 apart |
| `Doubles.SeventeenClose` | `native/numfmt.c:256-276` | seventeen digits are within one part in 2 * 10^16 |
| `Doubles.SeventeenSuffice` | `native/numfmt.c:256-276` | so seventeen always read back, and the fallback is never reached |
| `Doubles.TryDigits` | `native/numfmt.c:256-271` | stops at the first p whose text reads back |
| `Doubles.Repr` | `native/numfmt.c:244-277` | the text reads back as the same double, with the least p that does, and is in that notation; nan, inf and signed zero as written |
| `Shortest.ReadsIff` | `native/numfmt.c:8-16` | a number is rounded to v if and only if it is within half the gap above and half the gap below, a quarter of the gap above for a power of two, ties for an even fraction |
| `Shortest.CloserReadsBack` | `native/numfmt.c:8-16` | with neighbours equally far, a number as close as one that reads as v reads as v |
| `Shortest.SomeTextReadsIff` | `native/numfmt.c:8-16` | for every double, some decimal of p digits reads as v if and only if the candidate does, or lies more than a quarter gap below v with the next decimal of p digits at most half a gap above |
| `Shortest.PrintedIsShortestIff` | `native/numfmt.c:8-16` | what is printed is the shortest if and only if no candidate of up to sixteen digits lies so before one is near enough to read as v |
| `Shortest.NoShorterText` | `native/numfmt.c:8-16` | so with neighbours equally far, if any decimal of p digits reads as v, the candidate of p digits does |
| `Shortest.PrintedIsTrimmed` | `native/numfmt.c:193-277` | what is printed ends in no zero but the one of .0, as with a digit less it would read back too |
| `Shortest.LongerThanNeeded` | `native/numfmt.c:8-16` | 2^-44 is printed with seventeen digits, though 5.684341886080802e-14 reads as it |
| `Gc.GC.Track` | `native/gc.c:162-168` | a new object goes first in the list and its size into the account |
| `Gc.GC.PushTemp` | `native/gc.c:170-177` | one temporary root more |
| `Gc.GC.PopTemp` | `native/gc.c:179-181` | the last one gone |
| `Gc.GC.MarkObject` | `native/gc.c:196-200` | marks it, queues it once, keeps that only gray objects have unmarked children |
| `Gc.GC.Blacken` | `native/gc.c:213-335` | every child gets marked |
| `Gc.GC.TraceReferences` | `native/gc.c:346-351` | terminates on every graph, with no gray object left |
| `Gc.GC.Mark` | `native/gc.c:337-351` | what is marked is exactly what is reachable from the roots |
| `Gc.GC.Sweep` | `native/gc.c:353-373` | unlinks and frees exactly the unmarked, in order, clears the marks, keeps the account |
| `Gc.GC.Collect` | `native/gc.c:375-381` | exactly the reachable objects survive, in their old order, unmarked, and bytesAllocated is the sum of their sizes |
| `Gc.GC.MaybeCollect` | `native/gc.c:383-392` | collects at the stress period or past the threshold, and otherwise changes nothing in the list; the counter starts again at the period |
| `Gc.GC.FreeAll` | `native/gc.c:143-152` | every tracked object is freed and nothing is left in the account |
| `Gc.ClosedHoldsReachable` | `native/gc.c:337-351` | a set with the roots, closed under references, holds all that is reachable |
| `Groupchats.IndexInsert` | `native/groupchat.c:33-38` | one empty slot fewer; an index that agreed with the entries agrees with one entry more |
| `Groupchats.EmptySlot` | `native/groupchat.c:33-53` | an index larger than its entries has an empty slot, so probing ends |
| `Groupchats.Probe` | `native/groupchat.c:77-87` | the loop over slots comes to what Probing says, where it ends |
| `Groupchats.ProbingScans` | `native/groupchat.c:77-87` | with an index that agrees, that is the entry a scan finds, or that there is none |
| `Groupchats.EndlessIff` | `native/groupchat.c:77-87` | it never ends if and only if no slot is empty and none is the key's |
| `Groupchats.FreeSlots` | `native/groupchat.c:44-53` | an index that agrees has a slot for each string key and the others are empty |
| `Groupchats.Groupchat.constructor` | `native/groupchat.c:61-75` | the given entries, set one after another |
| `Groupchats.Groupchat.RebuildIndex` | `native/groupchat.c:44-53` | a new index that agrees with the entries, of the first capacity that leaves it room |
| `Groupchats.Groupchat.Find` | `native/groupchat.c:77-92` | in any state in which it ends, the entry probing comes to, or for other keys and without an index a scan |
| `Groupchats.Groupchat.AboutFinds` | `native/groupchat.c:77-92` | that is the position a linear scan finds, indexed or not; for a string key with an index, in what the index is about |
| `Groupchats.Groupchat.Set` | `native/groupchat.c:94-116` | replaces what is found, counted or not, or appends; in a map in order it replaces in place or appends, and keeps the index in agreement through growth |
| `Groupchats.Groupchat.Remove` | `native/groupchat.c:118-134` | closes the gap, keeping order, and drops the index it has made wrong |
| `Groupchats.Groupchat.Append` | `native/groupchat.c:101-116` | from twelve entries on there is an index; it grows past its load, and otherwise has one empty slot fewer |
| `Groupchats.Groupchat.Clear` | `native/groupchat.c:255-262` | the entries stay in memory, and the map is in order if and only if no string key was indexed |
| `Groupchats.Groupchat.ClearThenFind` | `native/groupchat.c:77-92` | after clearing, a string key is found, with its old entry, if and only if it was indexed |
| `Groupchats.Groupchat.ClearThenSet` | `native/groupchat.c:94-116` | setting it then writes to that old entry and the map stays empty; another key is the first entry |
| `Groupchats.Groupchat.ClearThenRemove` | `native/groupchat.c:118-134` | nothing is found to remove |
| `Groupchats.Groupchat.Unseen` | `native/groupchat.c:77-87` | a string key that is nowhere in memory is absent if a slot is empty, and otherwise looked for without end |
| `Groupchats.Groupchat.ClearThenFill` | `native/groupchat.c:94-116` | clearing, then setting as many new string keys as there are empty slots: in order again if the index had to grow, and else full, so that looking for a new key never ends |
| `Groupchats.TwelveThenTwenty` | `native/groupchat.c:94-116` | such maps there are: any twelve string keys, cleared, and any twenty others |
| `Groupchats.ClearedMapRemembers` | `native/groupchat.c:255-262` | any twelve or more string keys are all found after clearing |
| `Groupchats.PutThenLookup` | `native/groupchat.c:94-116` | what was set is found |
| `Groupchats.PutLeavesOthers` | `native/groupchat.c:94-116` | setting one key changes no other |
| `Groupchats.WithoutThenLookup` | `native/groupchat.c:118-134` | removing one string key removes it and changes no other |
| `Interns.StepKeeps` | `native/interns.c:526-1130` | no step of hiring, delivering, finishing, collecting, messaging or teardown faults, and each keeps the invariant |
| `Interns.RunsAreSafe` | `native/interns.c:526-1130` | nor does any interleaving of them |
| `Interns.HireIds` | `native/interns.c:534-629` | a new id is one above the highest of that VM's interns, and above all it ever gave out |
| `Interns.JoinedExactlyOnce` | `native/interns.c:701-753` | over every run, a started thread is joined once by the time its VM has closed, never before it ended, and its memory goes after that |
| `Interns.IdsNeverReused` | `native/interns.c:526-541` | over every run, no id is given out twice by a VM, and while the VM lives it names one intern |
| `Interns.CollectFinds` | `native/interns.c:526-532` | collecting goes to the very intern the id names, unless it is retired, and finds nobody if and only if the id names nobody, or one that is |
| `Interns.DmReaches` | `native/interns.c:938-948` | a message goes to the mailbox of the intern the id names, if it is still at work; the sender is told that it has finished, or that there is none, if and only if that is so |
| `Interns.JoinWaits` | `native/interns.c:728-732` | collecting waits if and only if the thread still runs |
| `Interns.JoinsAndRetires` | `native/interns.c:728-753` | once it has ended, the next two steps join it, retire it and let the VM go on, and change nothing else |
| `Interns.CollectsTheOneAskedFor` | `native/interns.c:701-753` | over every run: whatever all the others do meanwhile, the VM waits for that intern, and if its thread has ended by then it is joined and retired, and the VM goes on |
| `Mail.Mailbox.Grow` | `native/interns.c:82-104` | a ring twice as long with the same queue, whatever the wrap-around |
| `Mail.Mailbox.Push` | `native/interns.c:82-104` | appends to the queue, or refuses at the cap and changes nothing |
| `Mail.Mailbox.Pop` | `native/interns.c:106-117` | takes the oldest, or finds none |
| `Mail.Mailbox.Free` | `native/interns.c:127-139` | frees each value still queued, once, in order |
| `Mail.RunsAreSafe` | `native/interns.c:878-982` | no interleaving of senders and receivers faults, and the invariant holds throughout |
| `Mail.DeliveredInOrder` | `native/interns.c:878-982` | what a VM read, then what was dropped with its mailbox, then what is still there, is what was posted, in that order |
| `Mail.FreedOnce` | `native/interns.c:878-982` | each message is in one place and is freed at most once, and is freed exactly when nobody has it |
| `Mail.NoMailMissed` | `native/interns.c:1029-1039` | with the lock free, a sleeper in interns_wait_for_mail has no mail |
| `Mail.HolderMovesOn` | `native/interns.c:878-982` | whoever holds the lock can take a step, and a poster's wakes all sleepers |
| `Mail.WaitAnySleepsOnMail` | `native/interns.c:666-692` | a run in which interns_wait_any sleeps with mail waiting |
| `EventLoop.Vm.Fulfill` | `native/otw.c:71-79` | settles once: a settled otw does not change |
| `EventLoop.Vm.Reject` | `native/otw.c:81-89` | the same for an error |
| `EventLoop.Vm.FireDueTimers` | `native/loop.c:188-200` | exactly the parked timers that are due fire |
| `EventLoop.Vm.SettleReadySockets` | `native/loop.c:85-146` | exactly the parked socket waits that are readable, or late, settle |
| `EventLoop.Vm.SettleMailboxes` | `native/loop.c:151-166` | messages go to mailbox waits in the order of the tasks, as MailInOrder and GivenIsReceived say; late ones give up |
| `EventLoop.DeliveredShrinks` | `native/loop.c:151-166` | the mail left is the end of the mail there was: none overtakes another |
| `EventLoop.MailInOrder` | `native/loop.c:151-166` | the messages given out, in the order of the tasks that get them, then the mail left, are the mail there was |
| `EventLoop.GivenIsReceived` | `native/loop.c:151-166` | each otw given a message is settled with that very message, none is given two, and no other is settled but late ones, with nothing |
| `EventLoop.Vm.SettleInterrupts` | `native/loop.c:171-184` | Ctrl-C settles every parked wait for it and nothing else |
| `EventLoop.DeliveredNothing` | `native/loop.c:151-166` | the pass over mailbox waits does nothing if and only if each found, when it was looked at, no mail and no passed deadline |
| `EventLoop.Vm.Notice` | `native/loop.c:243-270` | tells whether anybody woke, which is exactly when something had happened for somebody when it was looked at; every otw settled got what had happened for it, and nobody who still waits could have been woken |
| `EventLoop.Vm.NextDeadlineMs` | `native/loop.c:205-223` | -1 if and only if nobody has a deadline; otherwise no later than the earliest |
| `EventLoop.Vm.Block` | `native/loop.c:272-352` | whether anything can still happen, what is slept on, and a sleep that goes past a deadline if and only if Ctrl-C is all that is waited for besides and a deadline is nearer than 25 ms |
| `EventLoop.Oversleeps` | `native/loop.c:337-344` | two tasks, one waiting for Ctrl-C and one for a timer due in 10 ms: the sleep is 25 ms |
| `EventLoop.Vm.WakeWaiters` | `native/loop.c:243-353` | false exactly when nothing had happened for anybody when it was looked at, and nothing is behind anything anybody waits for, mail possibly having come meanwhile; and it sleeps in interns_wait_any with mail for a waiter in the inbox exactly where MailSleptOn says |
| `EventLoop.MailSleptThrough` | `native/loop.c:243-335` | a run in which it does, the one task waiting for that very mail |
| `EventLoop.TooLateIff` | `native/loop.c:243-353` | somebody who waits for mail is given up with mail there if and only if it came after the pass had looked, no intern is left, and nothing else is behind any waiter |
| `EventLoop.Vm.LookOutside` | `native/loop.c:243-449` | gives everybody up exactly then, and with mail unread exactly where MailTooLate says |
| `EventLoop.MailLeftUnread` | `native/loop.c:243-449` | a run in which the one task, waiting for mail, is given up with a message in its inbox |
| `EventLoop.Vm.StrandWaiters` | `native/loop.c:437-449` | leaves nobody waiting, and rejects exactly what was waited for |
| `EventLoop.Vm.FinishTask` | `native/loop.c:42-62` | the task is done and its otw has its outcome |
| `EventLoop.Vm.TakeTurn` | `native/loop.c:508-529` | after a turn of a task other than the entry that returned v, or raised e, an otw of its that was still pending is fulfilled with v, or rejected with e; every other otw is as the turn left it; and only that task, and the one it took over from, changed |
| `EventLoop.Vm.PickReady` | `native/loop.c:24-30` | the first ready task, if any |
| `EventLoop.Vm.Dropped` | `native/loop.c:466-496` | whether an error was never awaited, and none is reported twice |
| `EventLoop.Vm.Run` | `native/loop.c:498-558` | a record of all rounds: each turn is the first ready task's and hands on its own outcome, and a round in which nobody can run wakes all and only those for whom something has happened, or tells all that it is in vain; it ends only when the entry raised, whose outcome is the one reported, or with every task done, and stops early only where the script is used up or impossible; no settled otw ever changes |
| `Frames.Vm.Grow` | `native/vm.c:937-941` | moving the running task's stack to one twice as long changes nobody's view of it |
| `Frames.Vm.Push` | `native/vm.c:937-943` | one value more on the running task's stack, and nobody else's any different |
| `Frames.Vm.Spawn` | `native/vm.c:994-1001` | a new task with its arguments on its own stack, nobody else's any different |
| `Frames.Vm.Save` | `native/task.c:56-72` | the stack and everything else that is a task's own goes to the Task |
| `Frames.Vm.Restore` | `native/task.c:74-90` | and comes back from it |
| `Frames.Vm.SwitchTo` | `native/vm.c:717-731` | changes who runs, and nobody's stack, frames, upvalue list, error or module |
| `Frames.Vm.LiveStack` | `native/frames.c:14-16` | the array that holds that task's stack now, never a freed one, for a task that has not been retired |
| `Frames.Vm.Get` | `native/frames.c:33-35` | reads the upvalue's own task's slot, or the closed value |
| `Frames.Vm.Set` | `native/frames.c:37-43` | writes that slot and no other, whoever is running |
| `Frames.Vm.Close` | `native/frames.c:45-48` | freezes the value it would have read |
| `Frames.Vm.Capture` | `native/vm.c:1032-1043` | the open upvalue there is for the slot, or a new one, listed with its task's |
| `Frames.Vm.CloseFrom` | `native/vm.c:1045-1056` | closes exactly the running task's open upvalues from a slot on, each with what is in its slot, and keeps the others listed |
| `Frames.Vm.Cut` | `native/vm.c:1262-1285` | the stack cut at a handler's depth or a frame's slotBase, with all above closed first |
| `Frames.Vm.Retire` | `native/vm.c:733-750` | frees the stack of a task that is done and not running, and changes nobody else's |
| `Frames.ClosedBeforeFreed` | `native/vm.c:733-750` | over every run from the start, an upvalue of a retired task is closed unless the task ended by dip, and an upvalue can be read if and only if it is closed or its task is not retired |
| `Frames.OverForGood` | `native/vm.c:1045-1056` | once a task is over no step opens or closes an upvalue of it |
| `Frames.DipLeavesOpen` | `native/vm.c:1254-1261` | a run in which a task dips with a local captured, and its upvalue stays open with the stack freed |
| `Frames.Run` | `native/frames.c:14-48` | any run of pushes, growth, writes, switches, spawns, captures, reads, cuts, calls, returns, ends and retirements sees what it would if each task simply owned its stack |
| `Frames.RunFromStart` | `native/vm.c:706-750` | so does any run of a new VM |
| `Portable.Copier.CopyValue` | `native/portable.c:94-163` | terminates on every heap graph; the trail is as before, and the live blocks are those of the copy or, on refusal, none more |
| `Portable.Copier.Free` | `native/portable.c:221-249` | frees every block of a copy, once |
| `Portable.CopiedIffPortable` | `native/portable.c:55-163` | a copy is made if and only if nothing reachable is a cycle or local to its heap |
| `Portable.CopyIsSame` | `native/portable.c:55-163` | the copy has the shape and contents of the value |
| `Portable.CopyKeepsKeysApart` | `native/portable.c:71-92` | keys that differ stay different, so no entry is lost in the rebuilding |
| `Portable.ToValue` | `native/portable.c:172-219` | what is rebuilt has the shape of the copy and is all new |
| `Portable.Carry` | `native/portable.c:165-219` | end to end: it arrives if and only if it is portable, with the same shape, sharing no object |
| `JsonRoundTrip.EscapeBack` | `native/json.c:444-481` | each escape that is written is read as the characters it stands for |
| `JsonRoundTrip.StringBack` | `native/json.c:129-208` | a string comes back byte for byte |
| `JsonRoundTrip.UnicodeEscapes` | `native/json.c:154-190` | \uXXXX, alone or in pairs, is read as well-formed UTF-8 of that character |
| `JsonRoundTrip.IntBack` | `native/json.c:214-281` | an integer of any size comes back |
| `JsonRoundTrip.DecimalBytesAre` | `native/json.c:491-605` | the digits written are those bignum_to_decimal_string gives |
| `JsonRoundTrip.ValueBack` | `native/json.c:283-393` | wherever it stands, the text of a value is read as that value, or refused for its depth |
| `JsonNumbers.AcceptsGrammarIff` | `native/json.c:214-281` | what is read is a number of section 6 of RFC 8259 if and only if no zero with a digit after it is in front |
| `JsonNumbers.GrammarIff` | `native/json.c:214-281` | text up to where a number can end is a number of that grammar if and only if it is read so, and no spare zero is in front |
| `JsonNumbers.ReadsLongest` | `native/json.c:214-281` | the longest number is taken, and every one that is not cut short |
| `JsonNumbers.LeadingZeroIsRead` | `native/json.c:223-230` | 01 is read as 1, and is no number |
| `JsonNumbers.FloatBack` | `native/json.c:214-281` | a literal with a fraction or an exponent is read as itself |
| `JsonRoundTrip.SpillThenParse` | `native/json.c:395-638` | parse(spill(v)) == v, compact or pretty, with key order kept, if and only if v is nested at most 512 deep; else it is refused as too deep |
| `JsonGrammar.SpilledIsJson` | `native/json.c:444-638` | what is written is JSON text by sections 2 to 7 of RFC 8259 if and only if every string in it is well-formed UTF-8 |
| `JsonGrammar.StringIff` | `native/json.c:444-481` | the text of a string is a string of that grammar if and only if it is well-formed |
| `JsonGrammar.IntIsNumber` | `native/json.c:500-513` | that of an integer of any size is a number of it |
| `JsonLayout.WhiteSpaceAside` | `native/json.c:485-638` | compact text has no white space outside strings, and pretty text without it is the compact text |
| `JsonLayout.PrettyIsSpread` | `native/json.c:485-638` | pretty text is the compact text with a new line, and two spaces for each container open there, after each opening bracket and each comma and before each closing one, unless the container is empty: every item stands alone on its line; with a space after each colon; and a new line at the end |
| `JsonAccepts.ParseIff` | `native/json.c:395-412` | a text is taken if and only if it is JSON text, zeros in front of numbers and any bytes in strings allowed, that goes at most 512 deep; then it is read as what it means, however it is derived |
| `JsonAccepts.JsonIsTaken` | `native/json.c:370-412` | every JSON text of RFC 8259 is read as what it means, or refused for its depth |
| `JsonAccepts.NodeTaken` | `native/json.c:283-393` | wherever the text of a value stands it is read as what it means, the last entry of a key counting |
| `JsonAccepts.ValueGiven` | `native/json.c:283-393` | what is read as a value is the text of one, and not too deep |
| `JsonAccepts.CharsTaken` | `native/json.c:129-208` | a string is read as what it says: bytes as they are, escapes as the letters or code units they stand for, a pair of halves as one character, a half alone as U+FFFD |
| `JsonAccepts.HexDigitIsPlace` | `native/json.c:102-108` | a hex digit is worth its place among 0 to 9 and a to f, or A to F |
| `Json.EscapeLetters` | `native/json.c:154-160` | the letters of section 7 of RFC 8259, what they stand for, and no others |
| `Json.SetKeepsPlaces` | `native/json.c:317-368` | setting a key keeps all keys in their places and all other values; a new key goes last |
| `JsonFloats.FormattedIsLiteral` | `native/numfmt.c:193-242` | what format_digits writes is such a literal, and a number of the grammar |
| `JsonFloats.DoubleThroughJson` | `native/json.c:509-521` | a finite double is written as JSON text, and read as the text numfmt_repr gave, and so as that double |
| `JsonFloats.ZeroThroughJson` | `native/json.c:509-521` | so is a zero, with its sign |
| `JsonParser.Parse` | `native/json.c:395-412` | the recursive descent with its cursor and failed flag computes Parsed: value, or the first problem and its place, counted in characters too |
| `JsonParser.Parser.Value` | `native/json.c:370-393` | read_value agrees with ReadValue on value, end and failure |
| `JsonParser.Parser.Array` | `native/json.c:283-315` | read_array agrees with ReadArray |
| `JsonParser.Parser.Object` | `native/json.c:317-368` | read_object agrees with ReadObject, a repeated key replacing the value |
| `JsonParser.Parser.ReadString` | `native/json.c:129-208` | read_string agrees with ReadChars |
| `JsonParser.Parser.Number` | `native/json.c:214-281` | read_number agrees with ReadNumber |
| `JsonParser.Parser.Report` | `native/json.c:71-76` | the first failure is the one kept, with the code points before it |
| `JsonWriter.TreeIffAcyclic` | `native/json.c:418-441` | a value has a tree if and only if no container it leads to contains itself |
| `JsonWriter.Spill` | `native/json.c:607-638` | refused if and only if some container the value leads to contains itself; otherwise Spilled of its tree, if and only if every integer in it prints |
| `JsonWriter.Buf.Value` | `native/json.c:491-605` | write_value appends the text of the value's tree, if it has one that does not come back to the trail, and leaves the trail as it was |
| `JsonWriter.Buf.WriteString` | `native/json.c:444-481` | write_string appends the quoted, escaped string |
| `JsonWriter.Trail.Contains` | `native/json.c:425-430` | whether a container is being written |
| `Utf8.EncodeCp` | `native/da_string.c:50-71` | the encoding of the code point, and no other byte changed |
| `Utf8.EncodeThenDecode` | `native/da_string.c:20-71` | encoding a scalar value gives one well-formed sequence that decodes to it |
| `Utf8.ValidIsGrammar` | `native/da_string.c:95-136` | the validity check accepts exactly the grammar of section 4 of RFC 3629 |
| `Utf8.CodepointCount` | `native/da_string.c:32-39` | the cursor moves needed to get through the bytes |
| `Utf8.ByteOffsetOf` | `native/da_string.c:41-48` | where the cursor is after that many moves |
| `Utf8.CutsBetween` | `native/da_string.c:32-48` | cutting at such an offset splits the count exactly: on any bytes no sequence is counted twice or lost |
| `Utf8.CountsChars` | `native/da_string.c:32-39` | well-formed text is counted by characters, and as many as bytes if and only if ASCII |
| `Utf8.AsManyAsBytes` | `native/da_string.c:32-39` | any bytes have as many code points as bytes if and only if none but the last leads a longer sequence |
| `Utf8.StrayByteCounts` | `native/da_string.c:10-16` | the byte 0x80 alone, and 0xE9 at the end, are as many code points as bytes |
| `Utf8.FlagIsForOffsets` | `native/da_string.h:8-13` | exactly then is each code point at the byte of its number |
| `Utf8.StringNew` | `native/da_string.c:73-88` | the bytes, their count, and a flag that is set if and only if none but the last leads a longer sequence |
| `Utf8.Lossy` | `native/da_string.c:95-136` | at most three output bytes for each input byte |
| `Utf8.LossyBytes` | `native/da_string.c:95-136` | the decoding loop fits its buffer and computes Lossy |
| `Utf8.LossyIsWellFormed` | `native/da_string.c:95-136` | lossy decoding of any bytes is well-formed |
| `Utf8.LossyKeepsWellFormed` | `native/da_string.c:95-136` | well-formed text is left as it is |
| `Utf8.LossyIdempotent` | `native/da_string.c:95-136` | decoding twice is decoding once, and only well-formed text is unchanged |
| `Utf8.BadByteIsReplaced` | `native/da_string.c:95-136` | a byte that starts no character becomes U+FFFD and takes no other byte with it; a character stays |
| `Utf8.StringNewUtf8Lossy` | `native/da_string.c:95-136` | a string of the decoded bytes, its code points counted, and marked ASCII if and only if it is |
| `Blob.Base64Encode` | `native/blob.c:71-95` | fills the buffer with the base64 text |
| `Blob.QuadSpells` | `native/blob.c:71-95` | three bytes and their four characters are one number, to base 256 and to base 64; for fewer bytes zero bits are added and = fills the group |
| `Blob.Char64IsInTable` | `native/blob.c:37-37` | the alphabet of table 1 of RFC 4648, in its order |
| `Blob.Value64IsPlace` | `native/blob.c:97-105` | a character is worth its place in that table, and any other is refused |
| `Blob.Base64Decode` | `native/blob.c:110-148` | the bytes, or nothing for what is not base64 |
| `Blob.Base64RoundTrip` | `native/blob.c:71-148` | decoding undoes encoding for every byte string |
| `Blob.Base64Accepts` | `native/blob.c:110-148` | decodes exactly the texts of whole groups with '=' only in the last places |
| `Blob.HexEncode` | `native/blob.c:39-47` | two digits for each byte, high half first |
| `Blob.HexIsPlace` | `native/blob.c:36-54` | a digit is written as the character in its place among 0 to 9 and a to f, and read back from it, or from A to F |
| `Blob.HexDecode` | `native/blob.c:56-69` | refuses an odd length or another character, only those, and otherwise pairs up the digits |
| `Blob.HexRoundTrip` | `native/blob.c:39-69` | what is written in hex is accepted and spells the bytes |
| `Blob.FindBytes` | `native/blob.c:286-293` | the first match, or that there is none |
| `Blob.Split` | `native/blob.c:335-366` | refuses an empty separator only; otherwise cuts at each next match |
| `Blob.Join` | `native/blob.c:369-402` | the parts with the separator between them |
| `Blob.SplitThenJoin` | `native/blob.c:335-402` | joining the pieces of a split gives the bytes back |
| `Blob.PiecesAreFree` | `native/blob.c:335-366` | no piece contains the separator, and each cut is at its first match |
| `ModulePaths.NormalizeModulePath` | `native/modules.c:68-106` | the loops over segments compute Normalized |
| `ModulePaths.NormalizedIsNormal` | `native/modules.c:68-106` | for every path: no empty or "." segment, ".." only at the front, and normalising again changes nothing |
| `ModulePaths.NormalizedIsNoLonger` | `native/modules.c:95-104` | never longer than the path, so rewriting in place is safe |
| `ModulePaths.LeadsThereIff` | `native/modules.c:68-106` | the result leads where the path leads if and only if fewer than 64 segments are ever pending while there is more to read, or what is unread leads back |
| `ModulePaths.FewAreRead` | `native/modules.c:80-84` | a path of up to 64 segments never has that many pending |
| `ModulePaths.NormalizedLeadsThere` | `native/modules.c:68-106` | where fewer are pending, the result leads where the path leads |
| `ModulePaths.SameNameSamePlace` | `native/modules.c:68-106` | there, two paths get one name if and only if they lead to one place |
| `ModulePaths.LongPathIsCut` | `native/modules.c:68-84` | a path that never goes up keeps its meaning if and only if it has at most 64 names |
| `ModulePaths.SixtyFiveAreCut` | `native/modules.c:68-84` | one of 65 names does not |
| `ModulePaths.ResolveAgainstCurrent` | `native/modules.c:111-121` | joins onto the importing module's directory, cuts to the buffer, normalises |
| `ModulePaths.ResolvedLeads` | `native/modules.c:111-121` | if nothing is cut, the name leads where the path leads from that directory |
| `ModuleLoader.Loader.DoImport` | `native/modules.c:123-142` | a stdlib name is built or refused, a quoted path without a bundle refused, with nothing else changed; otherwise as Import |
| `ModuleLoader.Loader.Import` | `native/modules.c:144-191` | the module already made; or missing; or a cycle, exactly when it is running; or a first run, cached if and only if it went well; the stack is as before, and a bundle without cycles, gaps or errors always imports |
| `ModuleLoader.Loader.RunModule` | `native/vm.c:3651-3683` | the imports of the module are taken in order up to the first error that is not caught, and it goes well if and only if there is none and it does not chuck; the module's own name while it runs and the importer's after |
| `ModuleLoader.Loader.CycleFrom` | `native/modules.c:167-182` | the chain reported starts and ends with the module that closes the cycle |
| `ModuleLoader.RunPak` | `native/vm.c:3685-3707` | over a whole run, no module runs within itself, none runs again once it has gone well, every import is answered by what has happened, every run goes by its script, and so does the answer: false exactly for an uncaught import error or a chuck of the entry |
| `ModuleLoader.CachedRanThrough` | `native/modules.c:185-189` | a cached module did all of its script without an uncaught error and did not chuck: one that chucks is never cached |
| `ModuleLoader.UncaughtReachesEntry` | `native/modules.c:185-191` | an error that nothing catches from there on ends every run under way, the entry's too, and the bundle fails |

## Left out

- `platform.c`, `filez.c`, `internet.c`, `clock.c`, `computer.c`, `vault`: system calls, sockets, cryptography, the console.
- The interpreter, the bytecode reader and worker compilation with its cache; diagnostics and error text.
- malloc failure, and sizes beyond 32 bits.
- Hash values, `bignum_to_double`, comparisons of integers with floats.
- Squad lookup, stash methods, the remaining groupchat methods, random numbers, Unicode tables: easy members only.
- BignumBits.ShiftRight: what the source reads or writes outside its arrays when the narrowed count is negative is not modelled; `ok` says that it does.
- BignumText.ToDecimalString: what happens when the chunks do not fit is not modelled; `ok` says that they do not.
- Division.DivmodTrunc: q and r mean nothing when b is zero (the source does not set them); they are zero here so that they exist.
- Numfmt.ComputeDecExp: the first guess is a parameter, its floating-point estimate not being modelled; what is found does not depend on it.
- Doubles.Repr: `strtod` is any function that rounds to the nearest double, ties to even; its implementation is not part of this model.
- JsonRoundTrip.SpillThenParse: a float is its literal, which `JsonFloats` ties to doubles; it is about trees whose keys differ, so what comes back when a key that is no string is written like another key is not stated.
- JsonWriter.Spill: what another kind of value, or a key that is no string, displays as is a parameter; growth of the trail is not modelled.
- Groupchats.Groupchat.Find: equality of keys that are not strings is any relation that never holds with a string.
- Gc.GC.Blacken: the switch over object kinds is one list of children for each object.
- JsonGrammar.SpilledIsJson: a float is a number of the grammar, as `JsonFloats.FormattedIsLiteral` says of what numfmt_repr writes.
- JsonParser.Parser.Number: the text is the value of a float, strtod being part of `Doubles`; strtoll and bignum_from_digits are one loop over unbounded integers.
- Portable.Copier.Free: blocks are counted; which block is freed when is not modelled.
- Mail.RunsAreSafe: releasing the inbox of a VM outside any worker at exit is not a step.
- EventLoop.Vm.FinishTask: clearing a failed task's error flags is not modelled.
- EventLoop.Vm.Run: what a resumed task does, and what the world answers, are a script that may be anything; references between tasks and otws are numbers; finished tasks are reaped in `Frames`.
- Frames.Run: that compiled code pops no captured slot without closing it, and captures only slots that are there, is asked of every run; a frame is its slotBase.
- Portable.Carry: temporary roots for the collector and the text of a refusal are not modelled.
- Interns.DmReaches: the message itself and a full mailbox are in `Mail`; here the answer says whose mailbox it is.
- ModuleLoader.Loader.Import: what a stdlib module holds, and the text of the cycle report beyond its names; a run's imports depend on all that happened before the run, and every run ends.
- ModuleLoader.RunPak: imports that run in different tasks at the same time are not modelled.
