# Verified model of the printf engine, the containers and the two queues

This project models four parts of the repository and proves what they promise, or exactly
when they keep the promise.

- **The printf engine** (`ext/printf/src/printf/printf.c`): the output gadget, integer and
  decimal printing on a fixed 32-character scratch buffer, decimal rounding, the parser of
  directives and the format loop, up to `vsnprintf_` and the log formatter that bypasses it.
  Printed text is judged by readers that are defined on their own (`Readers`,
  `DecimalFields.ReadDecimal`), so that the laws are round trips: what a reader gets from
  the text is the value printed, if and only if a stated condition on width, precision and
  flags holds; and by the text the standard asks for, written down character by character on
  its own (`StandardText`), which it equals under an exact condition too. The behaviour modelled is that of formatted output in sections 7.21.6.1 and
  7.21.6.5 of ISO/IEC 9899:2011, with the deviations of the code kept and located.
- **The key-value list** (`kv_list.c`): over every run of add, remove, clear and sort the
  slot array is a finite map, whichever of the two searches is taken.
- **The linked lists** (`list_algo_macro.h`, `lw_list.c`, `linked_list.c`): real nodes
  relinked in place refine a sequence; the circular allocator of preallocated nodes hands
  out a slot exactly when one is free; both together are a bounded queue.
- **The BLE operation queue and the message bus** (`ble_op_queue.c`, `msg_bus.c`): both are
  transition systems, implemented by classes on top of the containers, with laws over all
  runs: conservation in FIFO order, safety and progress of operations, delivery of messages.

Each source file that works by changing things is modelled by classes and loops. Their
contracts tie them to functions on values (`Field`, `Render`, `Processed`, `Run`, ...), and
the lemmas about these functions are the results.

## Layout

| files | contents |
|---|---|
| `text`, `numerals`, `readers`, `flags` | strings, positional numerals, independent readers, flags |
| `gadget`, `integer_fields`, `integer_printer`, `decimal_parser` | output gadget, integers, `atou_` |
| `rounding`, `decimal_fields`, `decimal_laws`, `decimal_printer` | decimal floating point |
| `format_spec`, `format_laws`, `directive_text`, `format_driver`, `log_format` | formats, the driver, the log formatter |
| `standard_text`, `standard_laws`, `written_laws`, `text_laws` | the text the standard asks for, written down on its own, and when each directive prints it |
| `kv_nodes`, `kv_list`, `kv_runs` | key-value list |
| `node_list`, `bits`, `slot_pool`, `array_list` | linked lists and slot allocator |
| `op_spec`, `op_queue` | BLE operation queue |
| `bus_spec`, `msg_bus`, `bus_runs` | message bus |
| `witnesses` | concrete calls on the failing side of the laws |

`dafny verify dfyconfig.toml` checks everything.

## What turned out false, and when exactly

- A negative integer loses its sign exactly when zeros fill the scratch buffer: precision 32
  or more, or zero padding beyond width 32. A hexadecimal number with `#` and precision 31 is
  printed with `x` in the place of `0x`. In binary, values from 2 to the 32 on lose digits,
  and with `#` the prefix is printed as `b` when digits or zeros leave room for one character:
  for values of 31 digits unless a precision or zero padding beyond 32 fills the buffer, and
  for shorter ones at precision 31. Nothing else misreads
  (`IntegerFields.ReadsBackWithinLimits`, `Witnesses.SignLost`, `Witnesses.PrefixBroken`,
  `Witnesses.BinaryLost`, `Witnesses.BinaryPrefixBroken`).
- A field is narrower than its width exactly under zero padding beyond width 32
  (`IntegerFields.FieldWidth`, `DecimalLaws.DecimalWidth`).
- A decimal is misread exactly when its digits, point and minus sign need more than 32
  characters, or when a negative number is zero padded beyond width 32
  (`DecimalLaws.DecimalReadsBack`, `DecimalLaws.FitsWhen`, `Witnesses.DecimalCut`).
- In adaptive mode the text denotes the number exactly when it fits in the same sense and no
  zeros were written beforehand (precision beyond 17) behind a whole number other than zero;
  besides, a buffer full of 32 zeros reads as zero. Zeros written beforehand turn an integer
  into a multiple of itself, remain behind a fraction, and can push the point out of the
  buffer (`DecimalLaws.AdaptiveReadsBack`, `Witnesses.AdaptiveMultiplies`,
  `Witnesses.AdaptiveCut`).
- A number differs from the text the standard asks for exactly when that text, without its
  padding, has more than 32 characters, or zero padding goes beyond width 32; except that the
  loss of a space in front does not show among the spaces of the padding
  (`StandardLaws.IntegerIsStandard`, `StandardLaws.DecimalIsStandard`).
- The text for a null string pointer is not padded under the `0` flag (`FormatLaws.NullWidth`).
- `LIST_REMOVE_NODE` leaves a well-formed list exactly when the node removed was the only one
  (`NodeList.List.RemoveNode`, `Witnesses.TailStillLinked`).
- `kv_list_init` does not clear the `valid` flags, so the list is in order afterwards exactly
  when no flag was set (`KvList.KvList.Init`, `Witnesses.StaleSlot`).
- `ble_opq_process`, called while an operation runs, starts a second one exactly when the
  queue holds an operation ready to start behind operations that are passed over; a run is
  safe exactly when that never happens (`OpSpec.BusyProcessIsSafe`, `OpSpec.RunsAreSafe`,
  `Witnesses.StartsASecond`).
- Queued work is stalled, with nothing running, exactly when `ble_opq_complete` found work
  queued and `ble_opq_process` was not called since (`OpSpec.StalledExactly`).
- A topic id registered twice: an unsorted list always delivers to the first one, a sorted one
  may deliver to any, so that its delivery is determined exactly when all topics under the id
  have the same callback; a sort may redirect messages exactly when they have not
  (`BusSpec.DeliveryIsDetermined`, `BusSpec.SortChangesDelivery`, `Witnesses.SortRedirects`).
- The copy in `log_format_string_args` and the engine leave the same characters, over the
  length both return, exactly when that 16-bit length is below `LOG_CONTENT_SIZE_MAX`; the
  engine also writes a NUL behind the text (`LogFormat.FastPathAgrees`,
  `Witnesses.LongLogDiffers`).

## Model

| member | source | states |
|---|---|---|
| Gadget.OutputGadget.ForBuffer | ext/printf/src/printf/printf.c:449-459 | a gadget on a buffer stores at most INT_MAX characters, one on a null pointer none |
| Gadget.OutputGadget.ForFunction | ext/printf/src/printf/printf.c:461-468 | a gadget on a function passes on at most INT_MAX characters |
| Gadget.OutputGadget.PutChar | ext/printf/src/printf/printf.c:391-412 | every character is counted, the first ones are stored or passed on, and no cell outside the room changes |
| Gadget.OutputGadget.AppendTermination | ext/printf/src/printf/printf.c:415-426 | the buffer ends up with the longest prefix of the emitted text that leaves room for the NUL, then NUL; every other cell is as it was |
| IntegerPrinter.EmitReversed | ext/printf/src/printf/printf.c:523-526 | a text written backwards is emitted forwards |
| IntegerPrinter.EmitTrailingSpaces | ext/printf/src/printf/printf.c:528-533 | the wrap-around difference of two positions counts what was written since, so right padding reaches the width |
| IntegerPrinter.OutRev | ext/printf/src/printf/printf.c:511-534 | emits exactly the text padded with spaces on the side the flags name |
| IntegerPrinter.PushDigits | ext/printf/src/printf/printf.c:633-639 | the division loop leaves the digits of the number, least significant first, as far as there is room |
| IntegerPrinter.PushLeadingZeros | ext/printf/src/printf/printf.c:545-558 | zeros up to the width left for them or the precision, whichever is more, but not beyond the buffer |
| IntegerPrinter.TakeBack | ext/printf/src/printf/printf.c:567-579 | padding zeros are taken back for the prefix, never digits |
| IntegerPrinter.PrintIntegerFinalization | ext/printf/src/printf/printf.c:541-607 | emits the field of the number: padding, sign, prefix, zeros and digits in their places, all within 32 characters |
| IntegerPrinter.PrintInteger | ext/printf/src/printf/printf.c:610-642 | emits the field specified for value, base, precision, width and flags |
| Numerals.DigitsReadBack | ext/printf/src/printf/printf.c:633-639 | reading the printed digits in positional notation gives the number back, in every base |
| Numerals.DigitCount | ext/printf/src/printf/printf.c:633-639 | a number takes at most k digits if and only if it is below base to the k |
| IntegerFields.IntegerReadsBack | ext/printf/src/printf/printf.c:541-642 | a reader gets the signed value from the field if and only if the buffer keeps all digits, the minus sign and the whole prefix |
| IntegerFields.FaithfulUnless | ext/printf/src/printf/printf.c:541-642 | outside binary that fails only for a negative number filled up to the buffer size and for a hexadecimal prefix at precision 31 |
| IntegerFields.BinaryKept | ext/printf/src/printf/printf.c:541-642 | in binary it holds if and only if the value is below 2 to the 32 and the prefix, if asked for, has room for both characters or for none, in terms of value, precision, width and flags |
| IntegerFields.ReadsBackWithinLimits | ext/printf/src/printf/printf.c:541-642 | for every legal call and every base, the round trip holds if and only if value, precision, width and flags keep within stated limits |
| IntegerFields.FieldWidth | ext/printf/src/printf/printf.c:511-607 | the field has max(width, length at width 0) characters if and only if it is not zero padded beyond width 32 |
| IntegerFields.SpacePadding | ext/printf/src/printf/printf.c:511-534 | without zero filling the width only adds spaces, on the side the flags name |
| IntegerFields.ZeroPadding | ext/printf/src/printf/printf.c:545-592 | zero filling puts zeros between sign and prefix and the digits, as many as the width asks for, if and only if the number is not a binary one of 31 digits and more with a prefix |
| DecimalParser.Atou | ext/printf/src/printf/printf.c:500-507 | the wrapped accumulation is the number at the start of the text modulo 2 to the 32, and parsing stops at the first non-digit |
| DecimalParser.PrintedNumberParses | ext/printf/src/printf/printf.c:500-642 | printing in plain decimal and parsing gives the number back if and only if it is below 2 to the 32, stopping at the following non-digit |
| Rounding.RoundHalfEvenIsNearest | ext/printf/src/printf/printf.c:695-716 | the rounding used is to a nearest integer, ties going to the even one |
| Rounding.RoundingAtTheRemainder | ext/printf/src/printf/printf.c:692-716 | rounding the scaled remainder by its half and parity rounds the whole scaled number half to even |
| Rounding.GetComponents | ext/printf/src/printf/printf.c:682-718 | integral * 10^precision + fractional is the argument scaled and rounded half to even, with the fraction in range after the carry |
| Rounding.SplitIs | ext/printf/src/printf/printf.c:682-718 | the two parts are determined by the rounded number |
| DecimalFields.Stripped | ext/printf/src/printf/printf.c:834-843 | dropping zeros keeps the value of the fraction and ends on a non-zero digit |
| DecimalFields.LayoutReadsBack | ext/printf/src/printf/printf.c:824-908 | what survives of sign, zeros, digits and point in the buffer is read back completely if and only if it fits |
| DecimalLaws.DecimalReadsBack | ext/printf/src/printf/printf.c:824-915 | `%f` text denotes the argument rounded half to even with exactly the digits asked for, if and only if the number and its minus sign fit the buffer |
| DecimalLaws.UsualDecimalsFit | ext/printf/src/printf/printf.c:824-908 | within a thousand million, with at most 20 digits after the point and zero padding up to 32, everything fits |
| DecimalLaws.DecimalWidth | ext/printf/src/printf/printf.c:824-908 | the field-width law for decimals and its exact exception |
| DecimalLaws.FitsWhen | ext/printf/src/printf/printf.c:824-908 | a decimal fits if and only if precision, zeros, point and sign leave room for the digits of the integral part and zero padding leaves room for a minus sign |
| DecimalLaws.PrintedFitsWhen | ext/printf/src/printf/printf.c:1182-1199 | the same by argument, precision, width and flags of `%f` |
| DecimalLaws.AdaptiveThatFits | ext/printf/src/printf/printf.c:828-883 | of adaptive numbers that fit: sign and number denoted, the last digit, and a point if and only if the fraction is not zero |
| DecimalLaws.AdaptiveReadsBack | ext/printf/src/printf/printf.c:824-908 | for every number printed in adaptive mode, the text denotes it, sign included, if and only if it fits with no zeros written beforehand behind a whole number other than zero, or is zero in a buffer full of zeros |
| DecimalPrinter.PushFraction | ext/printf/src/printf/printf.c:850-865 | the two digit loops leave exactly the digits of the fraction with its leading zeros |
| DecimalPrinter.PushIntegral | ext/printf/src/printf/printf.c:874-883 | the digits before the point, at least one |
| DecimalPrinter.PushFractionAndPoint | ext/printf/src/printf/printf.c:828-872 | fraction and point as the adaptive and alternative flags ask |
| DecimalPrinter.PrintBrokenUpDecimal | ext/printf/src/printf/printf.c:824-908 | emits the field specified for the two parts of the number |
| DecimalPrinter.PrintFloatingPoint | ext/printf/src/printf/printf.c:1150-1199 | default precision, zeros for digits beyond 17, rounding and printing compose to the specified field |
| FormatDriver.Strnlen | ext/printf/src/printf/printf.c:481-486 | the smaller of string length and limit |
| FormatDriver.ParseFlags | ext/printf/src/printf/printf.c:1207-1220 | collects the flags of a directive and stops at the first other character |
| FormatDriver.ParseWidth | ext/printf/src/printf/printf.c:1246-1265 | width from digits or an argument, a negative one meaning left justification |
| FormatDriver.SkipNegativePrecision | ext/printf/src/printf/printf.c:1272-1276 | a negative precision is skipped digit by digit, or the format ends |
| FormatDriver.ParsePrecision | ext/printf/src/printf/printf.c:1267-1291 | precision from digits or an argument, a negative one counting as none |
| FormatDriver.ParseLength | ext/printf/src/printf/printf.c:1293-1354 | length modifiers, single and doubled |
| FormatDriver.ParseDirective | ext/printf/src/printf/printf.c:1244-1354 | the four fields of a directive in sequence, or an early end of the format |
| DirectiveText.DirectiveReadsBack | ext/printf/src/printf/printf.c:1241-1354 | every combination of flags, width, precision and length, written in the notation of the format, is parsed as written, whatever follows |
| DirectiveText.RenderOne | ext/printf/src/printf/printf.c:1222-1562 | a format of one written directive prints the conversion of its specifier with just these flags, width, precision and length |
| DirectiveText.PrintedAsWritten | ext/printf/src/printf/printf.c:1230-1444 | a written integer directive formats its argument, converted to the written length, with just these flags, width and precision |
| DirectiveText.WrittenReadsBack | ext/printf/src/printf/printf.c:1230-1444 | from a written directive of any length and base and an argument to text and back: the argument, if and only if the limits hold |
| DirectiveText.DecimalAsWritten | ext/printf/src/printf/printf.c:1230-1453 | a written `f` directive prints the argument with these flags, width and precision, and the text denotes it rounded half to even if and only if the rounded argument has no more digits than there is room for and the sign is kept |
| DirectiveText.UsualDecimalAsWritten | ext/printf/src/printf/printf.c:1230-1453 | for every argument up to a thousand million, precision up to 17 and zero padding up to 32, the text of `f` denotes the argument rounded half to even with exactly that many digits |
| FormatDriver.AdjustFlags | ext/printf/src/printf/printf.c:1367-1425 | no zero padding under a precision, no sign flags on unsigned and no `#` on decimal conversions |
| FormatDriver.PrintIntegerSpecifier | ext/printf/src/printf/printf.c:1358-1444 | the integer specifiers emit the field of the argument converted to the named width |
| FormatDriver.PrintChar | ext/printf/src/printf/printf.c:1468-1486 | the character padded with spaces on the side the `-` flag names |
| FormatDriver.PrintString | ext/printf/src/printf/printf.c:1493-1515 | the string cut to its precision and padded |
| FormatDriver.PrintStringSpecifier | ext/printf/src/printf/printf.c:1488-1518 | a null pointer prints `(null)` by way of the reversing printer |
| FormatDriver.PrintDecimalSpecifier | ext/printf/src/printf/printf.c:1446-1453 | `f` and `F` emit the field of the decimal |
| FormatDriver.RunDirective | ext/printf/src/printf/printf.c:1241-1560 | one directive emits its conversion and consumes its arguments, or stops without output |
| FormatDriver.FormatStringLoop | ext/printf/src/printf/printf.c:1222-1562 | terminates, with less format left after every step, having emitted the text the format denotes |
| FormatDriver.Vsnprintf | ext/printf/src/printf/printf.c:1565-1592 | the result is the full length whatever the room, the buffer holds the truncated text and NUL, no other cell changes, and size 0 writes nothing |
| FormatDriver.Vfctprintf | ext/printf/src/printf/printf.c:1599-1605 | a function gets the same characters in the same order; without one nothing is printed |
| FormatLaws.DirectiveExtends | ext/printf/src/printf/printf.c:1241-1354 | parsing a directive does not look past its specifier |
| FormatLaws.Compositional | ext/printf/src/printf/printf.c:1222-1562 | a complete format followed by another prints its own text and then what the other prints with the arguments left |
| FormatLaws.DirectiveSound | ext/printf/src/printf/printf.c:1246-1291 | a precision is set only together with its flag, and widths fit an unsigned int |
| FormatLaws.IntegerJobsAreLegal | ext/printf/src/printf/printf.c:1358-1444 | whatever the format, the integer printer is called with a consistent set of flags and the argument's magnitude and sign |
| FormatLaws.IntegerDirectiveReadsBack | ext/printf/src/printf/printf.c:1230-1444 | an integer directive of any format and base prints text that reads back as the argument, if and only if the limits hold |
| FormatLaws.CharWidth | ext/printf/src/printf/printf.c:1468-1486 | `%c` emits max(width, 1) characters |
| FormatLaws.StringWidth | ext/printf/src/printf/printf.c:1493-1515 | `%s` emits max(width, length) characters unless both pass INT_MAX |
| FormatLaws.NullWidth | ext/printf/src/printf/printf.c:1490-1492 | for a null pointer that holds if and only if zero padding is not asked for beyond 6 |
| StandardText.NumeralIs | ext/printf/src/printf/printf.c:633-639 | the digits of the division loop, read backwards, are the numeral of the number, digit for digit in the case asked for |
| StandardText.CutField | ext/printf/src/printf/printf.c:511-534 | a field of which at most 32 characters are kept comes out as it should if and only if nothing but a space in front can be missing |
| StandardLaws.IntegerIsStandard | ext/printf/src/printf/printf.c:541-642 | for every call of the integer printer the field is the text of the standard, with its sign character, prefix, precision zeros, digits and padding, if and only if it comes uncut through the buffer |
| StandardLaws.DecimalIsStandard | ext/printf/src/printf/printf.c:824-915 | the same for decimals: sign, digits of the argument rounded half to even, point, zeros beyond the seventeenth place and padding |
| WrittenLaws.ArgumentPassed | ext/printf/src/printf/printf.c:1404-1444 | the arguments an integer directive takes are exactly those of the type its length names, and what is printed is the argument itself, or the same bits in the range of a short or a char |
| WrittenLaws.IntegerPrinted | ext/printf/src/printf/printf.c:1356-1444 | for every written integer directive and every argument of its type: the text is that of the standard in base 10, 16, 8 or 2 if and only if it comes uncut through the buffer, and it reads as the argument if and only if the limits hold |
| WrittenLaws.IntegerShows | ext/printf/src/printf/printf.c:580-607 | what the flags show in the text: minus, plus or space in front, `0x`, `0X` or `0` under `#`, letters in the case of the specifier, at least as many digits as the precision, none for zero at precision zero |
| WrittenLaws.DecimalPrinted | ext/printf/src/printf/printf.c:1182-1199 | `f` and `F` print the text of the standard, with six digits after the point unless a precision is given, if and only if it comes uncut through the buffer |
| WrittenLaws.DecimalShows | ext/printf/src/printf/printf.c:824-908 | sign character, exactly the digits asked for after the point, and a point without digits only under `#` |
| TextLaws.StringPrinted | ext/printf/src/printf/printf.c:1493-1515 | `%s` prints the characters of the string in order, as many as the precision allows, with the missing columns as spaces behind them under `-` and in front of them otherwise |
| TextLaws.CharPrinted | ext/printf/src/printf/printf.c:1468-1486 | `%c` prints the character its argument converts to, padded likewise |
| TextLaws.NullPrinted | ext/printf/src/printf/printf.c:1488-1492 | a null pointer prints `(null)`, padded likewise unless zeros are asked for in front |
| TextLaws.OtherPrinted | ext/printf/src/printf/printf.c:1531-1559 | `%%` and characters that are no specifier print themselves, without padding and without taking an argument |
| TextLaws.WidthStar | ext/printf/src/printf/printf.c:1250-1264 | `*` for the width parses as the width written down, with `-` for a negative argument |
| TextLaws.PrecisionStar | ext/printf/src/printf/printf.c:1283-1289 | `.*` parses as the precision written down, and as none for a negative argument |
| TextLaws.BothStars | ext/printf/src/printf/printf.c:1250-1289 | with both, the first argument is the width and the second the precision |
| TextLaws.NegativePrecision | ext/printf/src/printf/printf.c:1272-1276 | a negative precision written down parses as none |
| LogFormat.PlainFormat | ext/printf/src/printf/printf.c:1230-1239 | a format without percent sign prints itself and takes no argument |
| LogFormat.LogFormatStringArgs | ccs_project/src/lib/log/log_format.c:23-45 | the bytes and the 16-bit length left by either branch |
| LogFormat.FastPathAgrees | ccs_project/src/lib/log/log_format.c:33-42 | over the length returned, the copy leaves the same characters as the engine if and only if that length is below the content size, for texts of any length; for shorter texts the engine differs in exactly the NUL cell |
| KvNodes.CompareIsPreorder | ccs_project/src/lib/kv_list/kv_list.c:104-122 | the comparison is a total preorder with used nodes first and equal only on equal keys, as qsort and bsearch ask |
| KvNodes.NodesSwapped | ccs_project/src/lib/kv_list/kv_list.c:124-133 | exchanging two nodes keeps the one-to-one binding of nodes to cells and what every cell in use holds |
| KvNodes.CellsBelowDepth | ccs_project/src/lib/kv_list/kv_list.c:24-55 | no more cells than slots are in use, and as many only if every slot is |
| KvNodes.SeenAll | ccs_project/src/lib/kv_list/kv_list.c:139-151 | once as many used nodes were passed as there are, none is left: the early exit misses nothing |
| KvNodes.UsedFirst | ccs_project/src/lib/kv_list/kv_list.c:124-133 | in sorted order the used nodes come first, ascending, and are as many as the cells in use |
| KvNodes.EntriesSwapped | ccs_project/src/lib/kv_list/kv_list.c:124-133 | exchanging two nodes changes nothing but the order of the entries |
| KvNodes.EntryAppended | ccs_project/src/lib/kv_list/kv_list.c:35-49 | while used slots come first, the lowest free slot appends an entry |
| KvNodes.LowestIsFirst | ccs_project/src/lib/kv_list/kv_list.c:139-151 | the lowest used slot with a key holds the first entry with it |
| KvList.KvList.Init | ccs_project/src/lib/kv_list/kv_list.c:7-22 | after initialisation the list is consistent, and then empty, if and only if no slot was marked used before |
| KvList.KvList.Add | ccs_project/src/lib/kv_list/kv_list.c:24-55 | fails if and only if the list is full; otherwise exactly one unused cell gets the key and the value, behind the others while used slots come first |
| KvList.KvList.Clear | ccs_project/src/lib/kv_list/kv_list.c:57-71 | nothing is in use any more |
| KvList.KvList.RemoveNode | ccs_project/src/lib/kv_list/kv_list.c:205-221 | exactly the node's cell goes out of use; the sorted mark survives only if nothing changed |
| KvList.KvList.Remove | ccs_project/src/lib/kv_list/kv_list.c:223-227 | a cell with the key goes out of use, every other stays |
| KvList.KvList.GeneralSearch | ccs_project/src/lib/kv_list/kv_list.c:135-154 | finds the lowest used slot with the key, or there is none |
| KvList.KvList.BinarySearch | ccs_project/src/lib/kv_list/kv_list.c:156-161 | the same on the sorted array |
| KvList.KvList.Search | ccs_project/src/lib/kv_list/kv_list.c:163-181 | whichever path is taken, a hit is a cell in use with the key and the bytes added for it, a miss means there is none |
| KvList.KvList.Get | ccs_project/src/module/ble/lib/ble_link.c:54-59 | the value of the first entry with the key, or of any on the sorted path; nothing if and only if no cell in use has the key |
| KvList.KvList.Walk | ccs_project/src/lib/kv_list/kv_list.c:183-203 | the keys in use in slot order, `count` of them |
| KvList.KvList.Sort | ccs_project/src/lib/kv_list/kv_list.c:124-133 | what every cell holds is unchanged, so that data pointers handed out stay good; the entries are the same in ascending order |
| KvList.KvList.SlotsOwnTheirBytes | ccs_project/src/lib/kv_list/kv_list.c:12-19 | in every list in order, two slots own byte ranges of the data array that do not overlap and lie inside it |
| KvList.KvList.SortedLayout | ccs_project/src/lib/kv_list/kv_list.c:124-133 | the sorted mark implies: used slots first, keys ascending, `count` of them |
| KvRuns.SameSize | ccs_project/src/lib/kv_list/kv_list.c:24-55 | cells in use and entries of the map they represent are equally many |
| KvRuns.Perform | ccs_project/src/lib/kv_list/kv_list.c:24-71 | every operation, with whatever key, is one step of the cells in use |
| KvRuns.RunIsMap | ccs_project/src/lib/kv_list/kv_list.c:24-227 | over every run in which keys in use are not added again, the cells in use are the plain map, and as many |
| KvRuns.EntriesAreAdded | ccs_project/src/lib/kv_list/kv_list.c:24-227 | over every such run a key has the value it was last added with while there was room, unless it was removed or everything cleared since |
| KvRuns.Execute | ccs_project/src/lib/kv_list/kv_list.c:24-227 | every run on a list, with whatever keys, is a run of its cells, and `count` is their number |
| KvRuns.Lookup | ccs_project/src/module/ble/lib/ble_link.c:54-59 | looking a key up gives the value added for it, or nothing |
| NodeList.List.InsertHead | ccs_project/src/lib/linked_list/list_algo_macro.h:9-28 | the node becomes the first of the sequence, both chains and the count stay intact, other data untouched |
| NodeList.List.InsertTail | ccs_project/src/lib/linked_list/list_algo_macro.h:30-49 | the node becomes the last of the sequence |
| NodeList.List.RemoveHead | ccs_project/src/lib/linked_list/list_algo_macro.h:51-68 | the first node comes out detached, the rest is the rest of the sequence; an empty list stays |
| NodeList.List.RemoveTail | ccs_project/src/lib/linked_list/list_algo_macro.h:70-87 | the last node comes out detached |
| NodeList.List.Exists | ccs_project/src/lib/linked_list/list_algo_macro.h:144-156 | following the links terminates and decides membership |
| NodeList.List.RemoveNode | ccs_project/src/lib/linked_list/list_algo_macro.h:89-142 | which of the two chains survives the removal of a node, exactly; the list as a whole only when the node was alone |
| NodeList.List.ChainsAreInverse | ccs_project/src/lib/linked_list/list_algo_macro.h:9-87 | the links of neighbours point at each other, and only head and tail lack one |
| Bits.CheckIsPower | ccs_project/src/lib/util/util_tool.h:24-25 | the bit test accepts exactly the powers of two |
| Bits.MaskIsRemainder | ccs_project/src/lib/util/util_tool.h:22-23 | on these the mask is the remainder |
| SlotPool.FreeIsFirst | ccs_project/src/lib/linked_list/linked_list.c:94-120 | the slot found is the first free one in circular order |
| SlotPool.FindsIfAnyFree | ccs_project/src/lib/linked_list/linked_list.c:94-120 | within one turn a slot is found if and only if one is free |
| SlotPool.AllocTakesNearest | ccs_project/src/lib/linked_list/linked_list.c:88-124 | an allocation takes the last slot taken if it is free, else the first free one behind it, else the first free one from the start, and remembers it; without a free slot nothing changes |
| SlotPool.UsedAreHeld | ccs_project/src/lib/linked_list/linked_list.c:69-124 | over every run the slots in use are exactly those handed out and not freed since |
| SlotPool.NeverTwice | ccs_project/src/lib/linked_list/linked_list.c:69-124 | between two times a slot is handed out it was freed |
| SlotPool.Pool.Init | ccs_project/src/lib/linked_list/linked_list.c:14-53 | every node detached and free, its data cleared |
| SlotPool.Pool.Probe | ccs_project/src/lib/linked_list/linked_list.c:96-107 | mask or remainder, the same index |
| SlotPool.Pool.Search | ccs_project/src/lib/linked_list/linked_list.c:94-121 | the probing loop looks at each slot at most once and finds the first free one |
| SlotPool.Pool.Alloc | ccs_project/src/lib/linked_list/linked_list.c:88-124 | returns a node that was free and marks it, null if and only if none is free, and touches nothing else |
| SlotPool.Pool.Free | ccs_project/src/lib/linked_list/linked_list.c:69-78 | the node is detached and free, its data kept |
| ArrayList.FreeIffRoom | ccs_project/src/lib/linked_list/linked_list.c:88-124 | when the used nodes are the linked ones, one is free if and only if fewer are linked than there are |
| ArrayList.Queue.constructor | ccs_project/src/lib/linked_list/linked_list.c:6-56 | an empty list over free nodes with cleared data |
| ArrayList.Queue.Push | ccs_project/src/lib/linked_list/linked_list.c:143-196 | allocating, filling and linking a node appends to the sequence, and fails if and only if all nodes are linked |
| ArrayList.Queue.Pop | ccs_project/src/lib/linked_list/linked_list.c:198-215 | unlinking and freeing the head takes the first element and keeps pool and list in step |
| OpQueue.Queue.constructor | ccs_project/src/module/ble/adv_scan/ble_op_queue.c:4-11 | an idle queue in the given state |
| OpQueue.Queue.PerformCommand | ccs_project/src/module/ble/adv_scan/ble_op_queue.c:13-63 | the new fields, the disposal of the operation and the wait flag, for any answer of the runner |
| OpQueue.Queue.Process | ccs_project/src/module/ble/adv_scan/ble_op_queue.c:65-85 | the popping loop terminates and takes the step of the transition system |
| OpQueue.Queue.Start | ccs_project/src/module/ble/adv_scan/ble_op_queue.c:87-102 | an operation is performed at once or appended to the list |
| OpQueue.Queue.Complete | ccs_project/src/module/ble/adv_scan/ble_op_queue.c:104-110 | the target state is reached and nothing runs |
| OpQueue.Execute | ccs_project/src/module/ble/adv_scan/ble_op_queue.c:4-115 | a whole run of calls on real lists is a run of the transition system |
| OpSpec.FirstInFirstOut | ccs_project/src/module/ble/adv_scan/ble_op_queue.c:65-102 | over every run, operations disposed of followed by those queued are the submitted ones, each once and in order |
| OpSpec.MatchIsCommonBit | ccs_project/src/lib/util/bit_state.h:6-31 | two words match if and only if one of the 16 bits is set in both |
| OpSpec.StartWhenIdle | ccs_project/src/module/ble/adv_scan/ble_op_queue.c:13-102 | an operation submitted to an idle queue is dropped if the state shares a bit with its target, refused if it shares none with its precondition, and else its runner starts, running if it answers 0, or the target is entered; the whole new state |
| OpSpec.StartWhenBusy | ccs_project/src/module/ble/adv_scan/ble_op_queue.c:87-102 | with work pending it is only appended |
| OpSpec.StateCounts | ccs_project/src/module/ble/adv_scan/ble_op_queue.c:104-115 | the state a submission finds is the target last completed or the state last set |
| OpSpec.RunsAreGated | ccs_project/src/module/ble/adv_scan/ble_op_queue.c:13-102 | over every run, every operation is disposed of by the bits it shares with the state it finds and by the answer of its runner |
| OpSpec.RunsAreSafe | ccs_project/src/module/ble/adv_scan/ble_op_queue.c:13-110 | over every run, runners start only when nothing runs, the precondition is met and the target is not, if and only if processing never met, while an operation ran, one ready behind others passed over |
| OpSpec.IdleRunsAreSafe | ccs_project/src/module/ble/adv_scan/ble_op_queue.c:13-110 | in particular if processing happens only while nothing runs |
| OpSpec.BusyProcessIsSafe | ccs_project/src/module/ble/adv_scan/ble_op_queue.c:65-85 | called while an operation runs, processing stays safe if and only if no queued operation is ready behind ones that are passed over |
| OpSpec.ProcessDrains | ccs_project/src/module/ble/adv_scan/ble_op_queue.c:65-85 | processing stops only when the queue is empty or an operation runs |
| OpSpec.WorkNeverStalls | ccs_project/src/module/ble/adv_scan/ble_op_queue.c:65-110 | with completion and processing as one step, pending work implies a running operation, and no two run at once |
| OpSpec.StalledExactly | ccs_project/src/module/ble/adv_scan/ble_op_queue.c:65-110 | over every run, work is pending with nothing running if and only if some completion found work queued and no processing followed |
| OpSpec.StartsAreCompleted | ccs_project/src/module/ble/adv_scan/ble_op_queue.c:13-110 | in disciplined runs the operations started are those completed and the one running |
| OpSpec.RepeatIsDropped | ccs_project/src/module/ble/adv_scan/ble_op_queue.c:19-21 | an operation submitted again after its completion is dropped without starting its runner |
| BusSpec.DeliveryIsDetermined | ccs_project/src/lib/msg_bus/msg_bus.c:95-109 | a lookup has one outcome if and only if the list is not sorted or all topics under the id share their callback |
| BusSpec.SameDelivery | ccs_project/src/lib/msg_bus/msg_bus.c:95-109 | where topics under the id agree, neither their order nor the way of searching matters |
| BusSpec.ConsumedInOrder | ccs_project/src/lib/msg_bus/msg_bus.c:50-133 | over every run messages consumed, then those queued, are the produced ones, each once and in order |
| BusSpec.HandledByItsTopic | ccs_project/src/lib/msg_bus/msg_bus.c:86-133 | a message whose topic is registered when it is produced invokes that callback, once and with its own data, whatever is registered or sorted before it is consumed, if all topics ever registered under the id have that callback |
| BusSpec.DeliveredAsCalled | ccs_project/src/lib/msg_bus/msg_bus.c:17-133 | over every run, by the calls alone: a message for a topic registered before, all registrations of which name one callback and have room, invokes that callback exactly once with the data and the value of the message, and nothing if it is null |
| BusSpec.CallDelivered | ccs_project/src/lib/msg_bus/msg_bus.c:68-111 | a call produced invokes the callback it names exactly once with its own data and value, and nothing if it is null |
| BusSpec.InvokedAsRegistered | ccs_project/src/lib/msg_bus/msg_bus.c:17-133 | over every run, with whatever topics, a message consumed invoked nothing or one callback registered under its id, with its own data and value |
| BusSpec.SortsAreInvisible | ccs_project/src/lib/msg_bus/msg_bus.c:24-30 | where topics under one id agree, every run and every run of the same calls without the sorts make the same deliveries |
| BusSpec.SortsCanBeDropped | ccs_project/src/lib/msg_bus/msg_bus.c:24-30 | and such a run without the sorts exists |
| BusSpec.SortChangesDelivery | ccs_project/src/lib/msg_bus/msg_bus.c:24-30 | a sort may redirect a message for an unsorted list if and only if two topics under its id have different callbacks |
| MsgBus.InitTopicLists | ccs_project/src/lib/msg_bus/msg_bus.c:11-14 | topic lists over unused storage are initialised, and empty |
| MsgBus.Bus.constructor | ccs_project/src/lib/msg_bus/msg_bus.c:6-15 | an empty queue over empty topic lists |
| MsgBus.Bus.RegisterTopic | ccs_project/src/lib/msg_bus/msg_bus.c:17-22 | the topic is appended to those of its channel, unless the list is full; other channels are untouched |
| MsgBus.Bus.SortTopic | ccs_project/src/lib/msg_bus/msg_bus.c:24-30 | all lists end up sorted, with the topics they had in the order of their ids |
| MsgBus.Bus.Push | ccs_project/src/lib/msg_bus/msg_bus.c:32-48 | the message is the last of the queue, or nothing is queued when no memory is left |
| MsgBus.Bus.ProduceMessage | ccs_project/src/lib/msg_bus/msg_bus.c:50-66 | a message for a topic is queued; on channel 255 it will be taken for a call |
| MsgBus.Bus.ProduceCall | ccs_project/src/lib/msg_bus/msg_bus.c:68-84 | a call with its own callback is queued |
| MsgBus.Bus.CallbackOf | ccs_project/src/lib/msg_bus/msg_bus.c:88-109 | the callback of a call, or of the topic found under the id on either search path |
| MsgBus.Bus.ConsumeMessage | ccs_project/src/lib/msg_bus/msg_bus.c:86-111 | exactly the callback the message is for is invoked, with its data, and none if it is null or missing |
| MsgBus.Bus.ConsumeCall | ccs_project/src/lib/msg_bus/msg_bus.c:113-133 | draining handles every queued message once, in order, and leaves the queue empty |
| BusRuns.Perform | ccs_project/src/lib/msg_bus/msg_bus.c:17-133 | every call on real lists is one step of the transition system |
| BusRuns.Execute | ccs_project/src/lib/msg_bus/msg_bus.c:17-133 | a whole run on real lists is a run of the transition system, and the callbacks saw exactly its invocations; where topics under one id agree, the same ones as in every run without the sorts |
| Witnesses.SignLost | ext/printf/src/printf/printf.c:556-558 | `%.32d` of -1 does not read as -1 |
| Witnesses.SignLostToZeros | ext/printf/src/printf/printf.c:547-554 | nor does `%033d` of -1 |
| Witnesses.PrefixBroken | ext/printf/src/printf/printf.c:580-591 | `%#.31x` of 1 does not read as 1 |
| Witnesses.BinaryLost | ext/printf/src/printf/printf.c:634-638 | `%b` of 2 to the 32 does not read as that |
| Witnesses.BinaryPrefixBroken | ext/printf/src/printf/printf.c:586-591 | `%#b` of 2 to the 30 does not read as that |
| Witnesses.WidthMissed | ext/printf/src/printf/printf.c:551-553 | `%033d` of 0 has 32 characters |
| Witnesses.NullNotPadded | ext/printf/src/printf/printf.c:1490-1492 | `%010s` of a null pointer has 6 characters |
| Witnesses.DecimalCut | ext/printf/src/printf/printf.c:1187-1191 | `%.31f` of 0 does not read as 0 |
| Witnesses.AdaptiveMultiplies | ext/printf/src/printf/printf.c:828-883 | 5 behind three zeros written beforehand does not read as 5 in adaptive mode |
| Witnesses.AdaptiveCut | ext/printf/src/printf/printf.c:850-865 | a fraction of 16 digits behind 23 zeros written beforehand does not read as that in adaptive mode |
| Witnesses.StaleSlot | ccs_project/src/lib/kv_list/kv_list.c:7-22 | a list with a slot marked used is not in order after initialisation |
| Witnesses.TailStillLinked | ccs_project/src/lib/linked_list/list_algo_macro.h:116-122 | removing the last of two nodes leaves a list that is not in order |
| Witnesses.LongLogDiffers | ccs_project/src/lib/log/log_format.c:33-42 | a text of the content size is cut by the engine and not by the copy |
| Witnesses.StartsASecond | ccs_project/src/module/ble/adv_scan/ble_op_queue.c:65-85 | two submissions and a call of processing before the first completion: two runners start |
| Witnesses.SortRedirects | ccs_project/src/lib/msg_bus/msg_bus.c:24-30 | a run with two topics under one id in which a message goes to the first before a sort and to the second after it |

## Left out

- Rounding.GetComponents: works on exact real numbers with a separate sign bit; the rounding of IEEE 754 operations, NaN and infinities are not modelled.
- DecimalPrinter.PrintFloatingPoint: magnitudes up to a thousand million and precisions up to 49 only; larger magnitudes go through the exponential path, larger precisions read past the table of powers of ten.
- DecimalLaws.AdaptiveReadsBack: speaks of the decimal printer in adaptive mode, not of the whole of `%g`, whose choice of notation rests on approximated logarithms.
- FormatDriver.FormatStringLoop: the specifiers `e`, `g`, `p` and `n` and the MSVC `I` sizes are outside the model; so are formats that end inside flags, width or digits, where the code reads past the terminating NUL, and missing or mistyped arguments. Formats that end after `%`, `*`, `.` or a length modifier stop silently, as in the code.
- TextLaws.StringPrinted: speaks of strings up to INT_MAX characters; the widths of longer ones are in FormatLaws.StringWidth.
- FormatDriver.ParseWidth: the least int as an argument counts as width 2 to the 31, where the code negates it with undefined behaviour.
- FormatDriver.Vsnprintf: texts of 2 to the 32 characters and more are covered only as to the result and the cells outside the room.
- LogFormat.LogFormatStringArgs: needs room for what is copied; the code does not check it.
- KvList.KvList.Sort: stands in for qsort with a selection sort, and BinarySearch for bsearch; the order of equal elements is not specified by either.
- KvList.KvList.Remove: the key has to be there; the code dereferences a null pointer otherwise.
- KvRuns.RunIsMap: supposes that keys in use are not added again; other runs are runs of cells, as KvRuns.Execute has it.
- KvList.KvList.SlotsOwnTheirBytes: connects cells to bytes; apart from it data cells are values rather than bytes.
- Gadget.OutputGadget.ForBuffer: the buffer has as many cells as the size passed; `vsprintf_`, which passes INT_MAX for any buffer, is not covered.
- NodeList.List.InsertHead: counts are unbounded; only the decrement below zero wraps in RemoveNode.
- NodeList.List.InsertTail: the node inserted must not be linked already, as in InsertHead; the code does not look.
- NodeList.List.RemoveNode: a node outside the list has to be detached; one that is linked in another list is not covered.
- SlotPool.Pool.Alloc: indices do not overflow size_t, which holds for any array that fits memory.
- ArrayList.Queue.Push: composes three library calls in the order the two queues use them on heap lists.
- OpQueue.Queue.Start: allocation of a heap node does not fail, and popped nodes are not reclaimed.
- OpSpec.RunsAreSafe: runner callbacks answer with any code but do not call back into the queue.
- MsgBus.Bus.ConsumeMessage: the channel named has to exist, or be 255; the code indexes its channel array without looking.
- MsgBus.Bus.constructor: takes the channels as given, since `mbus_init` does not set them, over unused storage as static storage is.
- MsgBus.Bus.ConsumeCall: begins after the event was received, and callbacks do not call back into the bus.
- BusSpec.HandledByItsTopic: supposes that topics under one id have one callback; for others InvokedAsRegistered says that at most one of them is invoked, DeliveryIsDetermined and SortChangesDelivery which.
- Mutexes and events: every list operation is one atomic step.
- `kv_list_at`, `linked_list_search`, `linked_list_sort`, hex dump and number log formatters, byte encoding macros: not modelled.
- Sizes of int, long and size_t are those of the 32-bit target; the printf family members that only forward are not repeated.
- Hardware access, BLE stack handlers, FreeRTOS wrappers and profiles: input and output or calls into code that is not part of this model.
