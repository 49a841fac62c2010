# Verified model of microfmt

microfmt is an allocation-free C++ formatting library: integer, calendar and address printers, a
format-string compiler, streaming CBOR and JSON writers, bounded sinks and a scratch allocator. This
project models that core in Dafny and proves what the output means. Most printers come with a reader
written independently of them, and the theorem is that reading inverts printing on all inputs; where several
texts read the same, further laws say which one is printed. Stateful parts are proved over every sequence of calls. `dafny verify dfyconfig.toml` verifies everything.

| files | content |
|---|---|
| Digits, Words, Output, Options, Search | numerals and their meaning, machine integers, the sink every formatter writes to, results of readers, searching |
| Integers, IntFormatter, Thousands | the staged, backward, binary and digit-walking printers, integer format specifications |
| Calendar, Timestamp, TimestampReading | days to dates, instants to text, text to instants, order |
| Cbor, CborItems, CborWriter, CborRuns | headers, data items and an RFC 8949 decoder, the writer objects, whole runs |
| JsonStrings, JsonDocuments, JsonWriter | escaping, an RFC 8259 reader, the writer objects, whole runs |
| WriterRuns | runs of container writers as a state machine, shared by CBOR and JSON |
| FormatString, FormatPaths, FormatFields, FormatSource | the format-string compiler, compiled and run-time output, what each field means, how strings are written |
| Ipv6, Ipv6Reading | RFC 5952 text of addresses and its reader |
| Decimals, BinaryTime, FixedPoint, PosixTime | decimal fractions: wide multiplication, scaling, truncation |
| Scratch, Sinks | the bump allocator and the bounded sinks |
| MiniLang, MiniLangLaws, MiniLangPool, MiniLangInterpreter | expression trees and their meaning, its laws in plain arithmetic, the node pool, evaluation over handles |
| DebugQuote, EmbeddedHeader | debug quoting, the two-layer escaper |
| CommentStripper, CommentColumns | the comment stripper, its lines and its columns |

## Where the code does less than one might expect

Each of these has a theorem with the exact condition, and one at a failing input.

- The compiled and the run-time format path print the same text under every renderer if and only if every
  field has its closing brace (`FormatPaths.SameTextIffTerminated`, `FormatPaths.UnterminatedExample`).
- A bintime with negative seconds prints its fraction unadjusted, so the text is right if and only if the
  seconds are not negative or the fraction is zero (`BinaryTime.BintimeReadsBack`, `BinaryTime.NegativeExample`).
- sbintime digits at picosecond precision are scaled by 10^9, so the text is right if and only if another
  precision is chosen or there is no fraction (`BinaryTime.SbintimeReadsBack`, `BinaryTime.PicosecondExample`);
  specifications never select that precision (`BinaryTime.NoPicoseconds`).
- A fixed-point fraction wraps when remainder * 10^Decimals reaches 2^64; the text is right if and only if
  it does not, also with Scale = 10^Decimals (`FixedPoint.FixedPointReadsBack`,
  `FixedPoint.DecimalScaleInvertible`, `FixedPoint.OverflowExample`).
- A timestamp reads back if and only if its instant lies in the years 0000 to 9999
  (`TimestampReading.ReadsBackIff`): other years are printed with more digits, and a day number beyond 32 bits
  prints as another day (`TimestampReading.LateYearExample`, `TimestampReading.CastExample`).
- A timespec or timeval reads back if and only if its sub-seconds are below one second, or exactly one second
  with negative seconds (`PosixTime.PosixReadsBack`, `PosixTime.UnnormalisedExample`).
- `key()` may be called on its own. A JSON run is then a well-formed value if and only if no key was left
  alone, at any depth (`JsonWriter.RunReadsBack`, `JsonWriter.KeyAloneUnread`). A CBOR run decodes if and only
  if every map was given an even number of keys alone (`CborRuns.RunDecodes`, `CborRuns.KeyAloneUndecoded`):
  keys and values pair up in the order written, so two keys alone make an entry (`CborRuns.TwoKeysDecoded`).
- The comment stripper's own description promises that columns stay meaningful. Block openers are dropped,
  so the code of a text keeps its columns if and only if on no line code follows a block comment opened on
  that line (`CommentColumns.TextColumns`, `CommentColumns.ShiftedExample`). Lines are always kept
  (`CommentStripper.LinesStripped`).

## Choices

- One character stands for one byte in text that the source handles as bytes.
- An argument of a format string is rendered by an arbitrary function of its index and specification.
- A clock reading, a system call or a Boost object appears as the number or bytes it yields.
- `Timestamp.FormatTimePoint` asks, when a date is to be written, that the addition which begins
  `civil_from_days` does not overflow; `BinaryTime.FormatBintime` asks for seconds whose negation does not
  overflow. The source has undefined behaviour elsewhere.
- Whether the allocator grants a node to the mini language's pool is a function of the pool's size that
  may be any function.
- The writers' type states (`unconsumed`) are the `requires !closed` of their methods and the availability of
  calls in `WriterRuns`. Each constructor and method also states that it is one step of that machine on its
  own writer, and `WriterRuns.DoesAmong`, `MakesAmong` and `StartsAmong` carry that to a machine with others alive.
- A run is disciplined when it writes one document and closes each child before its parent is used again.
- CBOR byte and text lengths are below 2^64. JSON numbers are the 64-bit integers the overloads accept.

## Model

| member | source | states |
|---|---|---|
| `Calendar.CivilMeaning` | include/microfmt/formatters/chrono.hpp:60-71 | For every day number whose shift by 719468 fits 32 bits, the result is a valid proleptic Gregorian date and the number of days from the epoch to it, counted year by year and month by month, is that day number |
| `Calendar.CivilInverse` | include/microfmt/formatters/chrono.hpp:60-71 | Every valid date in range is the result for its own day number |
| `Calendar.CivilSuccessor` | include/microfmt/formatters/chrono.hpp:60-71 | Day z + 1 gives the calendar successor of the date of day z, over month ends, year ends and leap days |
| `Calendar.CivilOrdered` | include/microfmt/formatters/chrono.hpp:60-71 | Dates are ordered and equal exactly as their day numbers are |
| `Calendar.Epoch` | include/microfmt/formatters/chrono.hpp:60-71 | Day 0 is 1 January 1970 |
| `Calendar.YearOfEraBracket` | include/microfmt/formatters/chrono.hpp:64-66 | The year of the era computed by the three-correction division is below 400 and leaves a day of the year within that year, so no unsigned subtraction goes below zero |
| `Calendar.Decompose` | include/microfmt/formatters/chrono.hpp:60-71 | Era, year of the era and day of the year rebuild the day number, and the date is the one of that day of the March-based year |
| `Calendar.MarchYearMeaning` | include/microfmt/formatters/chrono.hpp:66-70 | The month and day formulas turn every day of a March-based year into the valid date with that day number |
| `Timestamp.SplitSeconds` | include/microfmt/formatters/chrono.hpp:137-142 | Truncating division with the negative-remainder correction is floor division into days and seconds of the day |
| `Timestamp.SplitInstant` | include/microfmt/formatters/chrono.hpp:131-147 | For every instant in any rational tick unit, before the epoch too: the 32-bit cast of its day number, and the clock fields of its millisecond count |
| `Timestamp.SplitTicks` | include/microfmt/formatters/chrono.hpp:131-135 | Whole seconds and milliseconds of any rational tick count, rounded down |
| `Timestamp.FormatTimePoint` | include/microfmt/formatters/chrono.hpp:129-176 | Writes date, T and clock fields as the flags ask, asking for both parts being asking for neither; a date is demanded only to start without signed overflow, and none when only the clock is asked for |
| `TimestampReading.TimestampReadsBack` | include/microfmt/formatters/chrono.hpp:129-176 | In years 0000 to 9999 the default text has 24 characters and reads back to the millisecond count |
| `TimestampReading.PartsOfText` | include/microfmt/formatters/chrono.hpp:149-176 | The date alone is the first ten characters of the default text, the clock alone what follows its T, and both flags together give the default text |
| `TimestampReading.TimestampLength` | include/microfmt/formatters/chrono.hpp:129-176 | The text has 24 characters if and only if the year of the printed date is within 0000 to 9999, which for day numbers of 32 bits is the range of the instants of those years |
| `TimestampReading.ReadsBackIff` | include/microfmt/formatters/chrono.hpp:129-176 | Whenever there is a date to print, the text reads back to the instant if and only if the instant lies in years 0000 to 9999 |
| `TimestampReading.WrappedText` | include/microfmt/formatters/chrono.hpp:143 | An instant prints as the one its 32-bit day number stands for |
| `TimestampReading.LateYearExample` | include/microfmt/formatters/chrono.hpp:155 | The first instant of the year 10000: a longer text, which does not read back |
| `TimestampReading.CastExample` | include/microfmt/formatters/chrono.hpp:143 | An instant 2^32 days after the epoch prints as the epoch |
| `TimestampReading.YearRange` | include/microfmt/formatters/chrono.hpp:129-176 | An instant lies in that range if and only if the year of its date does |
| `TimestampReading.TimestampOrder` | include/microfmt/formatters/chrono.hpp:129-176 | Lexicographic order of two texts is the order of the instants, and equal texts mean equal instants |
| `Integers.FormatIntegerCore` | include/microfmt/microfmt.hpp:686-749 | The staged two-digit decimal and nibble hex printer writes the sign, zero padding to the width, and the digit-by-digit numeral |
| `Integers.StageDecimal` | include/microfmt/microfmt.hpp:696-724 | The pair-table loop fills the tail of a 21-character buffer with the decimal numeral and leaves room for a sign |
| `Integers.FormatBinary` | include/microfmt/microfmt.hpp:759-772 | Most-significant-bit-first output is the zero-padded base-2 numeral |
| `Integers.FormatUnsigned` | include/microfmt/microfmt.hpp:778-785 | Zero-padded numeral in the chosen base |
| `Integers.FormatSigned` | include/microfmt/microfmt.hpp:790-798 | Sign and magnitude for every 64-bit value including the minimum |
| `Integers.FormatDecBackward` | include/microfmt/microfmt.hpp:1070-1090 | Writing backward from the end of a buffer leaves exactly the decimal numeral there and touches nothing else |
| `Integers.FormatHexBackward` | include/microfmt/microfmt.hpp:1097-1109 | The same for hexadecimal |
| `Integers.SignedTextMeaning` | include/microfmt/microfmt.hpp:686-749 | The printed text reads back to the signed value and has length max(width, digits and sign) |
| `Digits.ReadText` | include/microfmt/microfmt.hpp:686-749 | The numeral reads back to its number in every base from 2 to 16 |
| `Digits.NoLeadingZero` | include/microfmt/microfmt.hpp:686-749 | The numeral starts with 0 only for zero |
| `Digits.TextLength` | include/microfmt/microfmt.hpp:686-749 | It has at most k digits if and only if the number is below the k-th power of the base |
| `Digits.DigitAt` | include/microfmt/formatters/numeric_views.hpp:64-75 | Its j-th digit is the quotient by the matching power of the base, modulo the base |
| `Digits.TextCase` | include/microfmt/microfmt.hpp:665-672 | Digits above nine are letters of the case asked for |
| `IntFormatter.ParseSpec` | include/microfmt/microfmt.ipp:41-80 | Flags once each in either order, width saturated at 65535, then the type letter |
| `IntFormatter.SpecRoundTrip` | include/microfmt/microfmt.ipp:41-80 | Every specification without contradictory flags is written by some text that parses to it |
| `IntFormatter.EmitFormattedInt` | include/microfmt/microfmt.hpp:1115-1146 | Zeros go between sign or prefix and digits, spaces go before the sign; writes the text that IntFormatter.FormattedLayout describes |
| `IntFormatter.FormatIntImpl` | include/microfmt/microfmt.hpp:1204-1248 | Each backward printer with its prefix and padding writes the specified form of a 64-bit value, the text that IntFormatter.FormattedLayout describes |
| `IntFormatter.FormattedIntReadsBack` | include/microfmt/microfmt.hpp:1115-1146 | The padded, prefixed text reads back to the value and has length max(width, content) |
| `IntFormatter.FormattedLayout` | include/microfmt/microfmt.hpp:1115-1146 | For every specification: sign, then 0b, 0x or 0X exactly when the alternate form and that type are asked for, then digits that read back in base 2, 16 or 10 without an excess zero and with letters of the case asked for; padded by spaces in front or by zeros between |
| `IntFormatter.SpecMeaning` | include/microfmt/microfmt.ipp:41-80 | What each part of a specification text asks for: each flag, the width saturated at 65535, the type letter |
| `IntFormatter.PrintersAgree` | include/microfmt/microfmt.hpp:1115-1146 | Zero-padded and without prefix, the backward printers give the same text as the staged printer, for every value, base and width |
| `Thousands.FormatThousands` | include/microfmt/formatters/numeric_views.hpp:45-76 | Sign and decimal numeral of the magnitude, grouped; the group size may be zero |
| `Thousands.WriteGroups` | include/microfmt/formatters/numeric_views.hpp:59-75 | Walking a decreasing power of ten and testing the remaining count writes the numeral grouped from the right |
| `Thousands.WalkIsGrouped` | include/microfmt/formatters/numeric_views.hpp:69-75 | The left-to-right separator test agrees with grouping defined from the right |
| `Thousands.UngroupGrouped` | include/microfmt/formatters/numeric_views.hpp:69-75 | Removing the separators gives back the numeral |
| `Thousands.SeparatorPlaces` | include/microfmt/formatters/numeric_views.hpp:69-75 | Counted from the right, a separator stands at exactly the places that leave the group size modulo one more; every other place holds the digit reached by not counting separators |
| `Thousands.GroupedLength` | include/microfmt/formatters/numeric_views.hpp:69-75 | There are (digits - 1) / group separators |
| `Cbor.EncodeHeader` | include/microfmt/formatters/cbor.hpp:42-64 | The branch by size and the shift loop write the initial byte and the big-endian argument |
| `CborItems.HeaderRoundTrip` | include/microfmt/formatters/cbor.hpp:42-64 | A header decodes to its major type and full 64-bit argument and leaves the rest |
| `CborItems.HeaderShortest` | include/microfmt/formatters/cbor.hpp:42-64 | No encoding of the same major type and argument is shorter (section 4.1 of RFC 8949) |
| `CborItems.InitialByte` | include/microfmt/formatters/cbor.hpp:30-38 | Every item begins with the major type that RFC 8949 gives it; false, true, null and the brackets of containers are its bytes |
| `CborItems.DecodeEncode` | include/microfmt/formatters/cbor.hpp:80-230 | Every data item decodes from its encoding, whatever follows |
| `CborItems.DecodeEncodeItems` | include/microfmt/formatters/cbor.hpp:236-351 | Items up to the break byte decode to the items |
| `CborItems.DecodeEncodeEntries` | include/microfmt/formatters/cbor.hpp:80-230 | Key and value pairs up to the break byte decode to the pairs, in order |
| `CborWriter.WriteScalar` | include/microfmt/formatters/cbor.hpp:119-209 | Every overload writes the encoding of an item that stands for what was passed: the same text, bytes or boolean, null for null, and an integer item of that value by section 3.1 of RFC 8949 |
| `CborWriter.MapWriter.constructor` | include/microfmt/formatters/cbor.hpp:84-88 | Opens one indefinite-length map, and is the creation step of the machine |
| `CborWriter.MapWriter.Move` | include/microfmt/formatters/cbor.hpp:94-97 | Moving writes nothing, hands over the open state and leaves the source with nothing to close |
| `CborWriter.MapWriter.PutKey` | include/microfmt/formatters/cbor.hpp:107-116 | Appends the key alone, and is one step of the machine |
| `CborWriter.MapWriter.Kv` | include/microfmt/formatters/cbor.hpp:119-209 | Appends a key item and a value item that stand for what was passed, and is one step of the writer machine |
| `CborWriter.MapWriter.NestedMap` | include/microfmt/formatters/cbor.hpp:211-215 | Appends the key, opens a child on the same sink, and is one step of the machine |
| `CborWriter.MapWriter.NestedArray` | include/microfmt/formatters/cbor.hpp:348-351 | The same for a child array |
| `CborWriter.MapWriter.End` | include/microfmt/formatters/cbor.hpp:220-225 | One break byte on the first end or destruction and none afterwards |
| `CborWriter.ArrayWriter.constructor` | include/microfmt/formatters/cbor.hpp:240-244 | Opens one indefinite-length array, and is the creation step of the machine |
| `CborWriter.ArrayWriter.Move` | include/microfmt/formatters/cbor.hpp:250-253 | As for maps |
| `CborWriter.ArrayWriter.Val` | include/microfmt/formatters/cbor.hpp:262-329 | Appends an item that stands for what was passed, and is one step of the machine |
| `CborWriter.ArrayWriter.Map` | include/microfmt/formatters/cbor.hpp:331-334 | Opens a child map on the same sink, and is one step of the machine |
| `CborWriter.ArrayWriter.End` | include/microfmt/formatters/cbor.hpp:336-341 | As for maps |
| `WriterRuns.StepKeeps` | include/microfmt/formatters/cbor.hpp:80-351 | Every available and disciplined call, a key on its own included, keeps the invariant that ties the sink and the live writers to the open containers |
| `WriterRuns.RunKeeps` | include/microfmt/formatters/cbor.hpp:80-351 | The invariant holds after every run of calls |
| `WriterRuns.RunPrintsDocument` | include/microfmt/formatters/cbor.hpp:80-351 | A disciplined run that has closed everything leaves exactly the printed form of the document written, whatever was nested, moved, ended twice or destroyed, and whether or not keys were written alone |
| `WriterRuns.DoesAmong` | include/microfmt/formatters/cbor.hpp:80-351 | What a call does to its writer alone, it does to that writer in a machine with any other writers alive |
| `WriterRuns.MakesAmong` | include/microfmt/formatters/cbor.hpp:80-351 | The same for nesting and moving, which bring a writer to life |
| `WriterRuns.StartsAmong` | include/microfmt/formatters/cbor.hpp:80-351 | The same for construction |
| `WriterRuns.DestroyEnds` | include/microfmt/formatters/cbor.hpp:90 | Destruction is the end of the writer, which is then gone |
| `CborRuns.DocDecodes` | include/microfmt/formatters/cbor.hpp:80-351 | The bytes of every document decode to the pairing of its items in the order written, or not at all when a map has an item left over, whatever follows |
| `CborRuns.DecodedIff` | include/microfmt/formatters/cbor.hpp:107-116 | There is such a pairing if and only if every map at every depth holds an even number of keys written alone |
| `CborRuns.DecodedSays` | include/microfmt/formatters/cbor.hpp:80-351 | The pairing says what was written, scalar by scalar and key by key in order, integers by their value |
| `CborRuns.PrintIsEncode` | include/microfmt/formatters/cbor.hpp:80-351 | When every key has its value, the pairing is the tree written and the bytes are its encoding |
| `CborRuns.RunDecodes` | include/microfmt/formatters/cbor.hpp:80-351 | For every disciplined run, the sink decodes if and only if every map was given an even number of keys alone; it then decodes to an item that says what was written, integers by value, which is the tree written when every key has its value, and following bytes are left alone |
| `CborRuns.WriteDocument` | include/microfmt/formatters/cbor.hpp:80-351 | Every map or array the calls can express, keys alone included, written through the writer objects, decodes to its pairing, which says what was written, and to itself when every key has its value |
| `CborRuns.KeyAloneUndecoded` | include/microfmt/formatters/cbor.hpp:107-116 | A map closed after one key alone does not decode, for every key |
| `CborRuns.TwoKeysDecoded` | include/microfmt/formatters/cbor.hpp:107-116 | A map closed after two keys alone decodes to their entry, for all keys |
| `JsonStrings.WriteEscapedString` | include/microfmt/formatters/json.hpp:48-87 | Quotes, backslashes and control bytes are escaped, all else is copied, between quotes |
| `JsonStrings.QuotedReadsBack` | include/microfmt/formatters/json.hpp:48-87 | An RFC 8259 string reader gets back the original bytes and stops at the closing quote |
| `JsonStrings.ShortestEscapes` | include/microfmt/formatters/json.hpp:48-87 | No text that reads as a string is shorter than the one written for it |
| `JsonStrings.EscapeCase` | include/microfmt/formatters/json.hpp:72-82 | Six-character escapes have upper-case digits |
| `JsonWriter.WriteInteger` | include/microfmt/formatters/json.hpp:26-39 | Writes the decimal number for the signed and unsigned 64-bit types, minimum included |
| `JsonDocuments.NumberReadsBack` | include/microfmt/formatters/json.hpp:26-39 | The number reads back exactly |
| `JsonDocuments.JsonReadsBack` | include/microfmt/formatters/json.hpp:101-324 | A printed document is a value under the grammar of sections 4 to 7 of RFC 8259 if and only if every key at every depth has its value; it then reads back to itself |
| `JsonDocuments.MembersReadBack` | include/microfmt/formatters/json.hpp:101-213 | Comma-separated members read back in order, or not at all if a key has no value |
| `JsonDocuments.ItemsReadBack` | include/microfmt/formatters/json.hpp:219-324 | Comma-separated items read back in order, or not at all if one is no value |
| `JsonWriter.ObjectWriter.constructor` | include/microfmt/formatters/json.hpp:103-105 | Opens an object whose next member takes no comma, and is the creation step of the machine |
| `JsonWriter.ObjectWriter.Move` | include/microfmt/formatters/json.hpp:116-119 | Moving writes nothing and leaves the source with nothing to close; comma state goes along |
| `JsonWriter.ObjectWriter.Key` | include/microfmt/formatters/json.hpp:129-134 | A comma unless first, the escaped key, a colon, and one step of the machine |
| `JsonWriter.ObjectWriter.Kv` | include/microfmt/formatters/json.hpp:136-182 | A member with its comma, and one step of the writer machine |
| `JsonWriter.ObjectWriter.KvCString` | include/microfmt/formatters/json.hpp:142-150 | The null pointer is written as null; one step of the machine |
| `JsonWriter.ObjectWriter.NestedObject` | include/microfmt/formatters/json.hpp:185-189 | Key and opening of a child on the same sink, and one step of the machine |
| `JsonWriter.ObjectWriter.NestedArray` | include/microfmt/formatters/json.hpp:321-324 | The same for a child array |
| `JsonWriter.ObjectWriter.End` | include/microfmt/formatters/json.hpp:195-200 | One closing brace on the first end or destruction and none afterwards |
| `JsonWriter.ArrayWriter.constructor` | include/microfmt/formatters/json.hpp:221 | Opens an array whose next item takes no comma, and is the creation step of the machine |
| `JsonWriter.ArrayWriter.Move` | include/microfmt/formatters/json.hpp:232-235 | As for objects |
| `JsonWriter.ArrayWriter.Val` | include/microfmt/formatters/json.hpp:244-293 | An item with its comma, and one step of the machine |
| `JsonWriter.ArrayWriter.ValCString` | include/microfmt/formatters/json.hpp:253-261 | The null pointer is written as null; one step of the machine |
| `JsonWriter.ArrayWriter.Obj` | include/microfmt/formatters/json.hpp:295-299 | Comma and opening of a child object, and one step of the machine |
| `JsonWriter.ArrayWriter.End` | include/microfmt/formatters/json.hpp:301-306 | As for objects |
| `JsonWriter.RunReadsBack` | include/microfmt/formatters/json.hpp:101-324 | For every disciplined run the output is a well-formed value if and only if no key was written alone, and then it is one value that reads back to the document written |
| `JsonWriter.WriteDocument` | include/microfmt/formatters/json.hpp:101-324 | Every object or array the calls can express, written through the writer objects, reads back to itself if every key has its value and is no value otherwise |
| `JsonWriter.KeyAloneUnread` | include/microfmt/formatters/json.hpp:129-134 | An object closed after one key alone is not a JSON value, for every key |
| `FormatString.ParsePositionalIndex` | include/microfmt/microfmt.hpp:1550-1572 | Accepts non-empty digit strings of any length and yields min(value, 2^64 - 1) |
| `FormatString.ParseField` | include/microfmt/microfmt.hpp:1617-1627 | The piece of a field as the reading has it, and the counter advanced only when the index is not a number; what that piece is, is FormatFields.FieldMeaning |
| `FormatString.Compile` | include/microfmt/microfmt.hpp:1588-1650 | The pieces in order are a direct recursive reading of the string, and there are at most as many as the string has characters, so the array one longer is never overrun |
| `FormatPaths.EmitPieces` | include/microfmt/microfmt.hpp:1671-1696 | Emitting pieces writes literals and rendered arguments in order |
| `FormatPaths.FormatCompiled` | include/microfmt/microfmt.hpp:1588-1696 | Compiling and emitting is rendering the direct reading, for every argument renderer; what each field of that reading means is FormatFields.FieldMeaning |
| `FormatPaths.VFormatTo` | include/microfmt/microfmt.ipp:87-152 | The run-time interpreter writes its own reading of the string, with the missing-argument text and with null entries skipped |
| `FormatPaths.WriteArgument` | include/microfmt/microfmt.ipp:127-137 | A number without argument prints the missing text, a null entry nothing, any other its rendering |
| `FormatPaths.PathsAgree` | include/microfmt/microfmt.hpp:1588-1650 | Compiled and run-time readings are equal if and only if every field is closed |
| `FormatPaths.SameTextIffTerminated` | include/microfmt/microfmt.ipp:87-152 | The two paths print the same text under every renderer if and only if every field is closed |
| `FormatPaths.UnterminatedExample` | include/microfmt/microfmt.ipp:113-151 | A string on which they differ |
| `FormatFields.FieldNumbering` | include/microfmt/microfmt.hpp:1617-1627 | The j-th field is numbered from the count of automatic fields before it |
| `FormatFields.FieldMeaning` | include/microfmt/microfmt.hpp:1617-1627 | For every string and field, cut at its first colon: the argument is min(numeral, 2^64 - 1) if a numeral stands before the colon, and otherwise the number of fields before it without one; the specification is what follows the colon, or empty |
| `FormatFields.RuntimeFieldMeaning` | include/microfmt/microfmt.ipp:113-140 | The same at run time, for every field that is closed |
| `FormatFields.RuntimeFields` | include/microfmt/microfmt.ipp:113-140 | The run-time arguments are those of the compiled reading, without the last when its field is left open |
| `FormatSource.SourcePrints` | include/microfmt/microfmt.hpp:1588-1696 | Any mix of text with braces doubled and fields with or without number and specification prints as intended on both paths, under every renderer |
| `FormatSource.LoneBracesAreText` | include/microfmt/microfmt.hpp:1631-1641 | A closing brace on its own is text, on both paths |
| `FormatSource.OpenField` | include/microfmt/microfmt.hpp:1611-1630 | A field never closed takes the rest of the string when compiled, while at run time its brace is text |
| `FormatFields.FieldCount` | include/microfmt/microfmt.hpp:1588-1650 | One argument is rendered per field |
| `FormatFields.DoubledIsLiteral` | include/microfmt/microfmt.hpp:1595-1640 | Doubling every brace of any text makes both readings literal |
| `FormatFields.DoubledPrintsText` | include/microfmt/microfmt.hpp:1595-1640 | Formatting it prints that text |
| `Ipv6.WordsOf` | include/microfmt/formatters/boost_net.hpp:25-35 | Each word has the first byte of its pair as its high half and the second as its low half |
| `Ipv6.FindBestRun` | include/microfmt/formatters/boost_net.hpp:37-53 | Finds the leftmost longest run of zero words of length at least two, or none |
| `Ipv6.BestRun` | include/microfmt/formatters/boost_net.hpp:37-53 | Nothing is compressed exactly when no two zero words are neighbours; otherwise the run cannot be extended and any other stretch of zeros is shorter or later |
| `Ipv6.BestIsUnique` | include/microfmt/formatters/boost_net.hpp:37-53 | There is only one such run |
| `Ipv6.GroupIsCanonical` | include/microfmt/formatters/boost_net.hpp:64 | Each group is lower-case hex without leading zeros and reads back to its word (section 4 of RFC 5952) |
| `Ipv6.WriteAddress` | include/microfmt/formatters/boost_net.hpp:55-66 | Groups joined by single colons with the run replaced by two |
| `Ipv6Reading.AddressReadsBack` | include/microfmt/formatters/boost_net.hpp:24-67 | An address reader gets back the same eight words, those before and after the run from the two sides of the double colon |
| `Ipv6Reading.ScopedReadsBack` | include/microfmt/formatters/boost_net.hpp:24-73 | With a zone, it gets back words and zone |
| `Ipv6Reading.FormatAddress` | include/microfmt/formatters/boost_net.hpp:24-73 | The text written for sixteen bytes and a zone reads back to words whose halves are those bytes and to the zone, compresses the leftmost longest zero run, and has a zone part exactly when the zone is not zero |
| `BinaryTime.MulHigh` | include/microfmt/formatters/bintime.hpp:91-103 | The product by 32-bit halves is floor(a * b / 2^64), with no intermediate over 64 bits |
| `BinaryTime.FracToDecimal` | include/microfmt/formatters/bintime.hpp:71-104 | The decimal fraction is floor(frac * 10^k / 2^64) and below 10^k |
| `BinaryTime.SbtFracToDecimal` | include/microfmt/formatters/bintime.hpp:113-132 | The 32-bit fraction scaled by the multiplier of the precision, truncated, without overflow |
| `BinaryTime.ParseSpec` | include/microfmt/formatters/bintime.hpp:162-176 | The last precision letter counts, and r or R anywhere drops the unit; the picosecond letters only where accepted |
| `BinaryTime.NoPicoseconds` | include/microfmt/formatters/bintime.hpp:259-271 | The sbintime specification never selects picoseconds |
| `BinaryTime.FormatBintime` | include/microfmt/formatters/bintime.hpp:185-205 | Writes sign, seconds, padded fraction and unit |
| `BinaryTime.BintimeReadsBack` | include/microfmt/formatters/bintime.hpp:185-205 | The text is the value truncated to k decimals if and only if the seconds are not negative or there is no fraction |
| `BinaryTime.NegativeExample` | include/microfmt/formatters/bintime.hpp:189-199 | Half a second after minus one second: the text does not read back to -0.5 |
| `BinaryTime.FormatSbintime` | include/microfmt/formatters/bintime.hpp:278-302 | Writes sign, seconds, padded fraction and unit of the magnitude, minimum included |
| `BinaryTime.SbintimeReadsBack` | include/microfmt/formatters/bintime.hpp:278-302 | The text is the value over 2^32 truncated toward zero to k decimals if and only if the precision is not picoseconds or there is no fraction |
| `BinaryTime.SpecifiedDecimals` | include/microfmt/formatters/bintime.hpp:162-205 | From the specification text to the number printed: the last letter of m, u, n, p or 3, 6, 9, 1 gives 3, 6, 9 or 12 decimals, and the time is truncated to them |
| `BinaryTime.NoLetterKeepsDefault` | include/microfmt/formatters/bintime.hpp:162-176 | Without such a letter the precision stays as it was |
| `BinaryTime.PicosecondExample` | include/microfmt/formatters/bintime.hpp:125-129 | Half a second at picosecond precision: the text does not read back |
| `Decimals.FixedReadsBack` | include/microfmt/formatters/bintime.hpp:185-205 | Sign, whole part and zero-padded fraction read back to the scaled number and its number of places |
| `Decimals.WideFraction` | include/microfmt/formatters/posix_time.hpp:137-143 | A fraction longer than its field reads as having more places |
| `FixedPoint.CtPow10` | include/microfmt/formatters/fixed_point.hpp:18-24 | Powers of ten up to 10^18 without overflow |
| `FixedPoint.FormatFixedPoint` | include/microfmt/formatters/fixed_point.hpp:75-120 | Sign unless the text is zero, whole part, fraction padded to its width, 64-bit wrap-around included |
| `FixedPoint.FixedPointReadsBack` | include/microfmt/formatters/fixed_point.hpp:75-120 | The text is raw / Scale truncated toward zero to the given decimals if and only if remainder * 10^Decimals stays below 2^64 |
| `FixedPoint.NoNegativeZero` | include/microfmt/formatters/fixed_point.hpp:107-110 | A minus sign is written exactly when the number written is below zero |
| `FixedPoint.DecimalScaleInvertible` | include/microfmt/formatters/fixed_point.hpp:75-120 | With Scale = 10^Decimals the raw value reads back if and only if that product stays below 2^64 |
| `FixedPoint.OverflowExample` | include/microfmt/formatters/fixed_point.hpp:103-104 | One half with 18 decimals: the product reaches 2^64 and the text does not read back |
| `PosixTime.FormatPosix` | include/microfmt/formatters/posix_time.hpp:118-148 | Writes any timespec or timeval with its sign and sub-second adjustment, in the 32-bit arithmetic of the source |
| `PosixTime.PosixReadsBack` | include/microfmt/formatters/posix_time.hpp:118-148 | The text is seconds plus fraction truncated toward zero to the shown digits, negative seconds included, if and only if the sub-seconds are below one second, or are exactly one second and the seconds negative |
| `PosixTime.DigitsShown` | include/microfmt/formatters/posix_time.hpp:118-148 | Three, six or nine digits for a timespec and three or six for a timeval, the time truncated to them |
| `PosixTime.UnnormalisedExample` | include/microfmt/formatters/posix_time.hpp:137-143 | One second and 10^9 nanoseconds: the text does not read back |
| `Scratch.PaddingAligns` | include/microfmt/scratch_allocator.hpp:64-66 | The offset leads to a multiple of the alignment and is below it |
| `Scratch.PaddingIsLeast` | include/microfmt/scratch_allocator.hpp:64-66 | No smaller offset does |
| `Scratch.GuardIsProduct` | include/microfmt/scratch_allocator.hpp:58-62 | The division guard is the comparison of the product with the space, so the product never overflows |
| `Scratch.ScratchAllocator.Allocate` | include/microfmt/scratch_allocator.hpp:58-74 | Fails exactly when the request is empty or no aligned address has room, then changes nothing; otherwise returns the least address that has, and keeps all blocks in bounds, aligned and disjoint |
| `Scratch.ScratchAllocator.Rest` | include/microfmt/scratch_allocator.hpp:106-118 | The child lies beyond every block handed out |
| `Scratch.ScratchAllocator.Reset` | include/microfmt/scratch_allocator.hpp:123 | All space is available again |
| `Scratch.ServedApart` | include/microfmt/scratch_allocator.hpp:58-97 | Over every sequence of requests, blocks are in bounds, aligned and pairwise disjoint and the position stays within capacity |
| `Scratch.ChildBeyondParent` | include/microfmt/scratch_allocator.hpp:106-118 | Blocks of a parent and of its child together are in bounds, aligned and pairwise disjoint |
| `Sinks.BoundedSink.Write` | include/microfmt/microfmt.hpp:93-105 | The buffer holds the longest prefix, of all writes since the reset, that fits, and nothing beyond it changes |
| `Sinks.BoundedSink.Reset` | include/microfmt/microfmt.hpp:135 | Nothing written |
| `Sinks.ChunkingIsInvisible` | include/microfmt/microfmt.hpp:158-168 | Writing in any chunks leaves what one write of the whole would |
| `Sinks.CountingSink.Write` | include/microfmt/microfmt.hpp:401-406 | The count is the total length written, modulo 2^64 |
| `Sinks.CStringSink.constructor` | include/microfmt/microfmt.hpp:494 | Empty and terminated |
| `Sinks.CStringSink.Write` | include/microfmt/microfmt.hpp:461-473 | The first N - 1 bytes of all writes, and a terminator right after them |
| `Sinks.CStringSink.Reset` | include/microfmt/microfmt.hpp:592-595 | Empty and terminated again |
| `Sinks.CStringSink.ReadsAsPrefix` | include/microfmt/microfmt.hpp:461-473 | Read as a C string, the buffer is the prefix that leaves one place if and only if that prefix has no NUL |
| `Sinks.FormatToN` | include/microfmt/formatters/fmt.hpp:106-140 | Reports the full length modulo 2^64; while that length is a 64-bit number, keeps the prefix that fits and touches nothing beyond it; never touches anything beyond the capacity, and copies nothing to a null destination |
| `MiniLangInterpreter.ApplyBinary` | examples/mini_lang.hpp:479-499 | Sum, difference and product wrapped to 64 bits, comparisons as 1 or 0, the truncated quotient; a zero divisor is the only error, and dividing by -1 does not overflow |
| `MiniLangInterpreter.QuotientFits` | examples/mini_lang.hpp:493-497 | Every quotient by a divisor other than 0 and -1 fits 64 bits |
| `MiniLangInterpreter.ApplyFunction` | examples/mini_lang.hpp:501-511 | For max an argument that none exceeds, for min one that none is below, for abs the argument or its negation and not negative, except that the minimum stays itself |
| `MiniLangInterpreter.Interpreter.Make` | include/microfmt/parsing/ast_pool.hpp:61-66 | Fails exactly when the pool is at its limit or the allocator refuses; otherwise the new handle stands for the tree of its node and every older handle for the tree it stood for |
| `MiniLangInterpreter.Interpreter.MakeBinary` | examples/mini_lang.hpp:255-268 | Builtin operator or declared function over the trees of the two handles; older handles keep their trees |
| `MiniLangInterpreter.Interpreter.MakePrefix` | examples/mini_lang.hpp:270-276 | Negation of the tree of the handle |
| `MiniLangInterpreter.Interpreter.MakeTernary` | examples/mini_lang.hpp:310-318 | Conditional over the trees of the three handles |
| `MiniLangPool.UnfoldStable` | include/microfmt/parsing/ast_pool.hpp:61-66 | Appending nodes never changes the tree of an older handle, nor does dropping newer nodes |
| `MiniLangPool.UnfoldWellFormed` | examples/mini_lang.hpp:255-318 | Handles stand for well-formed trees, and the stored error position is the one of the tree: for a division, of its divisor |
| `MiniLangPool.PushUnfolds` | examples/mini_lang.hpp:255-318 | A node whose children are older keeps the pool sound and unfolds over their trees |
| `MiniLangInterpreter.Interpreter.Evaluate` | examples/mini_lang.hpp:418-477 | Terminates, and gives the meaning of the unfolded tree: the value, or the first division by zero left to right, only the chosen branch looked at; MiniLangLaws says what that meaning is in plain arithmetic |
| `MiniLangInterpreter.Interpreter.Build` | examples/mini_lang.hpp:255-318 | Appending the nodes of a tree children first succeeds exactly when there is room, and the handle returned stands for that tree |
| `MiniLangInterpreter.Interpreter.EvaluateCall` | examples/mini_lang.hpp:464-473 | Arguments left to right up to the first error, then the function |
| `MiniLang.RingIsExactModulo` | examples/mini_lang.hpp:479-488 | An expression of sums, differences, products and negations has the exact integer value wrapped once |
| `MiniLangLaws.ArithmeticMeans` | examples/mini_lang.hpp:479-488 | Sums, differences, products and negations of any expressions are exact modulo 2^64 |
| `MiniLangLaws.ComparisonsMean` | examples/mini_lang.hpp:489-492 | Comparisons of any expressions are 1 or 0 |
| `MiniLangLaws.DivisionMeans` | examples/mini_lang.hpp:493-497 | A quotient truncates toward zero: the remainder has the sign of the dividend and is smaller than the divisor; exact except for the minimum divided by -1, which gives the minimum |
| `MiniLangLaws.ZeroDivisor` | examples/mini_lang.hpp:494-496 | A zero divisor is reported at its own token |
| `MiniLangLaws.FailuresInOrder` | examples/mini_lang.hpp:434-455 | The failure of the left operand comes before that of the right, and no other failure exists but a zero divisor |
| `MiniLangLaws.TernaryChooses` | examples/mini_lang.hpp:456-463 | A condition other than zero means the second part, zero the third, and the branch not chosen does not matter |
| `MiniLangLaws.ArgumentsInOrder` | examples/mini_lang.hpp:464-472 | The values of all arguments, or the failure of the first that fails |
| `MiniLangLaws.CallsMean` | examples/mini_lang.hpp:464-473 | A call is the largest, the smallest or the absolute value of its arguments |
| `MiniLangLaws.DeclaredOperatorsMean` | examples/mini_lang.hpp:444-455 | A declared operator is the larger or the smaller of its operands |
| `MiniLangInterpreter.Lookup` | examples/mini_lang.hpp:540-548 | The function of the first declaration of a spelling, and max for a spelling not declared |
| `MiniLangInterpreter.Interpreter.Expression` | examples/mini_lang.hpp:328-338 | The meaning of the expression if its nodes fit the 128 of the pool and the allocator grants them, an error otherwise, and in both cases the pool as before |
| `MiniLangInterpreter.Interpreter.Rollback` | include/microfmt/parsing/ast_pool.hpp:97-101 | Drops the nodes made after the mark and none other |
| `DebugQuote.WriteEscapedChar` | include/microfmt/microfmt.hpp:813-863 | Letter escape, escaped quote, printable byte or two-digit hex escape |
| `DebugQuote.WriteDebugQuoted` | include/microfmt/microfmt.hpp:868-875 | The escaped bytes between quotes |
| `DebugQuote.FormatCharDebug` | include/microfmt/microfmt.hpp:1287-1294 | A single byte in single quotes |
| `DebugQuote.QuotedReadsBack` | include/microfmt/microfmt.hpp:813-875 | Printable ASCII only; the closing quote is the first unescaped one; unescaping gives the original bytes, for either quote |
| `DebugQuote.ShortestEscapes` | include/microfmt/microfmt.hpp:813-875 | No printable text that reads as the bytes is shorter than the one written |
| `DebugQuote.EscapeForms` | include/microfmt/microfmt.hpp:849-862 | Hexadecimal escapes have two lower-case digits; without escaping of the quote only the quote differs |
| `EmbeddedHeader.EmitAsciiLines` | tools/gdb/generate_embedded_header.py:48-59 | Emits the lines of the text cut every 96 characters |
| `EmbeddedHeader.TokensAreEscapes` | tools/gdb/generate_embedded_header.py:32-45 | Escaping character by character is escaping the whole text in both layers |
| `EmbeddedHeader.CppReads` | tools/gdb/generate_embedded_header.py:32-34 | A C++ literal reader gives back what was escaped into it |
| `EmbeddedHeader.GasReads` | tools/gdb/generate_embedded_header.py:37-45 | An assembler string reader gives back the script text, and the escaped text has no raw newline |
| `EmbeddedHeader.LineDecodes` | tools/gdb/generate_embedded_header.py:56-59 | Every line on its own is one complete literal holding one complete directive and decodes to its piece of the text |
| `EmbeddedHeader.LinesDecode` | tools/gdb/generate_embedded_header.py:48-59 | Decoding all lines and joining gives back the text |
| `EmbeddedHeader.LineHolds` | tools/gdb/generate_embedded_header.py:57-59 | There is a line for every 96 characters begun, and line i decodes to those from 96 * i on |
| `CommentStripper.StripComments` | scripts/check-no-std-types.py:97-135 | The search loop equals the three-state automaton, and terminates as the unread part shrinks |
| `CommentStripper.CodeStep` | scripts/check-no-std-types.py:118-134 | Outside a block comment, one round copies up to the next opener and skips a line comment up to its newline |
| `CommentStripper.BlockStep` | scripts/check-no-std-types.py:109-117 | Inside, it blanks up to and with the closer, newlines kept |
| `CommentStripper.LineCommentGoes` | scripts/check-no-std-types.py:118-134 | A line comment is dropped up to its newline, which stays, or to the end |
| `CommentStripper.BlockCommentBlanked` | scripts/check-no-std-types.py:109-127 | A block comment loses its opener, and its text and closer become blanks with newlines kept |
| `CommentStripper.OpenCommentBlanked` | scripts/check-no-std-types.py:109-113 | A block comment never closed is blanked to the end |
| `CommentStripper.NoComment` | scripts/check-no-std-types.py:120-122 | A text without comments is itself |
| `CommentStripper.LinesStripped` | scripts/check-no-std-types.py:93-135 | Line k of the output is line k of the input stripped in the state left by the lines before it |
| `CommentStripper.LengthKept` | scripts/check-no-std-types.py:97-135 | The output is as long as the input if and only if the text has no comment opener, and then it is the input |
| `CommentColumns.RolesMeaning` | scripts/check-no-std-types.py:97-135 | The roles of the characters of a line say what stripping does with it: one output place for each kept character, holding the character if it is code and a blank if it belonged to a block comment |
| `CommentColumns.ColumnShift` | scripts/check-no-std-types.py:97-135 | A kept character moves left by the characters of the block openers before it on its line |
| `CommentColumns.LineColumns` | scripts/check-no-std-types.py:98-102 | All code of a line keeps its column if and only if no code follows a block comment opened on that line |
| `CommentColumns.CodeIsFound` | scripts/check-no-std-types.py:98-102 | Every code character of a text stands on its own line of the output, in the computed column |
| `CommentColumns.TextColumns` | scripts/check-no-std-types.py:98-102 | All code of a text keeps its column if and only if on no line code follows a block comment opened on it |
| `CommentColumns.ShiftedExample` | scripts/check-no-std-types.py:98-102 | The code after an empty block comment moves from column 4 to column 2 |
| `CommentColumns.UnmovedExample` | scripts/check-no-std-types.py:98-102 | Code before a line comment stays |

## Left out

- The JSON reader used for the round trip accepts what RFC 8259 calls values without insignificant white space, with integer numbers only, since nothing else is written.
- The CBOR decoder covers definite integers and strings, the simple values false, true and null, and indefinite arrays and maps; floats, tags and indefinite strings are never written.
- Copy and move construction of `c_string_sink` pass N where the default constructor passes N - 1, so the terminator theorem is for default-constructed sinks.
- MiniLangInterpreter.Interpreter.Expression: takes the tree that parsing yields; the token stream, the operator-precedence parser, error recovery and the text of parse errors are not modelled, nor are statements, variables' names and output of the mini language.
- MiniLangInterpreter.Interpreter.Build: says when there is no room, not at which token that is reported.
- Other sinks (logging, containers, asynchronous I/O), ranges, tables, colours, Markdown, CAN, I2C, SPI and register views: concatenation of parts, which would add easy members.
- Floating point through `snprintf`, `errno` and exception text, Boost and standard-library adapters: calls into foreign code.
- Template selection, type erasure, lifetime annotations and build scripts: no run-time property.
- Stack unwinding, symbol lookup, memory classification and the GDB client: outside the formatting core.
- The rest of the header generator and of the type checker script: fixed text and regular expressions.
- Escape sequences that the C++ compiler or the assembler know and the generator never emits.
