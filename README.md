# Type-safe units, modelled in Dafny

The repository checks physical units at the type level. A number carries a
units string such as `"m/s^2"` in its type. Adding two numbers requires
their units to denote the same dimension, and multiplying or dividing them
yields the printed units of the product or quotient. The compiler for unit
strings is written entirely as TypeScript type-level computation. It has
these layers:

- unary naturals (lists of marks) and sign/magnitude integers with one
  spelling of zero (`Natural`, `Integers`);
- string length and `join` (`Strings`), and `zip` (`TypeArray`);
- character cursors and item streams (`Streams`);
- a tokenizer (`Scanner`) and a recursive-descent parser from unit strings
  to maps from unit name to integer exponent (`UnitsParser`);
- the algebra on those maps (`Representation`);
- a printer with superscript exponents (`Printer`);
- an error-message renderer that splices bold messages into the source
  (`MessageBuilder`);
- the unit checks behind add, subtract, multiply and divide (`Units`).

Every type-level piece is a total function. Each one becomes a Dafny
function over datatypes, sequences and maps. Each asserted result in the
source is stated as an example lemma. Most of them are put together from
small step lemmas over arbitrary characters, one parsing step each.

The model also covers a few small runtime helpers from the same
repository:

- the box splitting used for chart layout (`Boxes`);
- the `maxValue` fold (`ArrayEx`);
- the fixed-size array check (`FixedSizeArrays`);
- the in-place path buffer of the polyline visual (`Polyline`, a `class`
  whose methods append to a `seq` field);
- the reader for a table of weekly price predictions (`DetailDataParser`).

JavaScript numbers are modelled as exact `real`s or as `nat`s. Strings are
sequences of Unicode scalar values.

## Model

| member | source | states |
|---|---|---|
| Natural.Known | type-level/natural.ts:9-22 | `Nat<k>` denotes k, for k up to 9 |
| Natural.Ten | type-level/units/scanner.ts:99 | `Nat<9>` plus `Nat<1>` denotes ten |
| Natural.SameLengthSame | type-level/natural.ts:3-6 | two unary naturals that denote the same number are the same list |
| Natural.Add | type-level/natural.ts:24-25 | the sum denotes the sum of the operands |
| Natural.Sub | type-level/natural.ts:27-30 | defined exactly when n1 >= n2, and then denotes n1 - n2; `never` otherwise |
| Natural.Mul | type-level/natural.ts:32-35 | the recursion on the second factor denotes the product |
| Natural.DivMod | type-level/natural.ts:37-44 | for a non-zero divisor, q * n2 + r = n1 and r < n2 |
| Natural.DivModUnique | type-level/natural.ts:37-44 | such a q and r are the quotient and remainder of integer division |
| Natural.Div | type-level/natural.ts:46 | the first projection of `divMod` denotes n1 / n2 |
| Natural.Mod | type-level/natural.ts:47 | the second projection of `divMod` denotes n1 % n2 |
| Integers.Normalize | type-level/integer.ts:15-18 | a zero magnitude gets the `+` sign, a non-zero value is unchanged, and the value is kept |
| Integers.Make | type-level/integer.ts:20-23 | `Integer<sign, abs>` is always normal and denotes sign * abs |
| Integers.Canonical | type-level/integer.ts:20-23 | two normal integers with the same value are identical, so each integer has one spelling |
| Integers.Int | type-level/integer.ts:25-46 | `Int<k>` is normal and denotes k, for -9 <= k <= 9 |
| Integers.SubNonZero | type-level/integer.ts:48-51 | the difference of two naturals, negative when the second is larger, normal |
| Integers.Add | type-level/integer.ts:53-64 | in all four sign cases, a normal integer denoting the sum |
| Integers.Sub | type-level/integer.ts:66-77 | in all four sign cases, a normal integer denoting the difference |
| Integers.Mul | type-level/integer.ts:79-80 | normal, denotes the product, magnitude is the product of magnitudes, and a non-zero product has sign `+` exactly when the signs agree |
| Integers.AddCommutes | type-level/integer.ts:53-64 | addition gives the identical spelling in either operand order |
| Integers.AddZero | type-level/integer.ts:53-64 | adding `Int<0>` on either side gives a normal integer back unchanged |
| Integers.SubIsAddNeg | type-level/integer.ts:66-77 | `sub(z1, z2)` is `add(z1, sub(Int<0>, z2))` |
| Strings.LengthAsNatWorker | type-level/string.ts:7-14 | whichever 32/16/8/4/2/1 chunk is peeled off, the count is the length plus the accumulator |
| Strings.LengthAsNat | type-level/string.ts:16 | `lengthAsNat` denotes the number of characters |
| Strings.Length | type-level/string.ts:17 | `length` is the number of characters |
| Strings.JoinWorkerConcat | type-level/string.ts:21-24 | the worker appends separator + item for each remaining item, in order |
| Strings.JoinSpec | type-level/string.ts:21-29 | `join([])` is empty, and `join(h :: t)` is h followed by separator + item for each item of t |
| Strings.JoinSingle | type-level/string.ts:26-29 | joining one item gives the item |
| Strings.JoinEmptySeparator | type-level/string.ts:21-29 | joining with `""` is plain concatenation |
| Strings.JoinSnoc | type-level/string.ts:21-24 | appending an item to a join appends the separator and the item |
| Strings.JoinDefaultPair | type-level/string.ts:26-29 | with the default separator, two items are joined by `", "` |
| TypeArray.ZipWorkerSpec | type-level/array.ts:3-6 | the worker appends, to the end of the accumulator, one pair per position of the shorter list |
| TypeArray.ZipSpec | type-level/array.ts:8-9 | the zip is as long as the shorter list, and its i-th pair is the two i-th items, so an empty input gives `[]` |
| Syntax.DigitValue | type-level/units/parser.ts:63-74 | an ASCII digit maps to a digit value of at most 9 |
| Syntax.DecimalSnoc | type-level/units/scanner.ts:102-105 | one more digit multiplies the value by ten and adds the digit |
| Syntax.LeadingZero | type-level/units/scanner.ts:220-228 | leading zeros do not change a decimal value |
| Streams.Position | type-level/parser.ts:17-18 | the position is the number of consumed characters |
| Streams.AdvancesKeepsSource | type-level/parser.ts:22-49 | moving characters from `remaining` to `consumed` keeps `consumed + remaining` |
| Streams.AdvancesTransitive | type-level/parser.ts:22-49 | two advances in a row are one advance that takes both texts in order |
| Streams.SkipSpaces | type-level/parser.ts:22-29 | only spaces are taken, the source is kept, and afterwards `remaining` does not start with a space |
| Streams.NoneOrUndefined | type-level/parser.ts:32-39 | one character is taken exactly when there is one and it is not a target; it is returned and moved to `consumed` |
| Streams.AnyOrUndefined | type-level/parser.ts:42-49 | one character is taken exactly when there is one and it is a target; it is returned and moved to `consumed` |
| Streams.ParseError | type-level/units/parser.ts:256-262 | a failure carries the whole source and the number of consumed characters as its position |
| Streams.AnyOf | type-level/units/parser.ts:272-278 | succeeds exactly as `anyOrUndefined` does; fails with the message at the current position |
| Streams.NoneOf | type-level/units/parser.ts:256-262 | succeeds exactly as `noneOrUndefined` does; fails with the message at the current position |
| Streams.StreamFromItems | type-level/parser.ts:60-64 | a new item stream has every item remaining and nothing consumed or diagnosed |
| Streams.PushDiagnostic | type-level/parser.ts:69-74 | the diagnostic is appended at the end; consumed and remaining are unchanged |
| Streams.TakeOrUndefined | type-level/parser.ts:76-86 | defined exactly when not at the end; moves the head of `remaining` to the end of `consumed` and keeps the diagnostics |
| Scanner.ParseIdChars0 | type-level/units/scanner.ts:69-72 | appends the longest run of identifier characters and stops before a non-identifier character |
| Scanner.ParseId | type-level/units/scanner.ts:75-78 | defined exactly when an identifier character comes next; reads a non-empty, maximal identifier |
| Scanner.ParseDigit | type-level/units/scanner.ts:94-97 | defined exactly when an ASCII digit comes next; takes it and returns its value |
| Scanner.ParseDigits0 | type-level/units/scanner.ts:102-105 | takes the longest run of digits |
| Scanner.ParseNatural | type-level/units/scanner.ts:108-111 | defined exactly when a digit comes next; takes a non-empty, maximal run of digits |
| Scanner.ParseDigits0Value | type-level/units/scanner.ts:102-105 | the accumulated value is the decimal value of the prefix followed by the digits read |
| Scanner.ParseNaturalValue | type-level/units/scanner.ts:108-111 | a natural token's value is the decimal value of its digits |
| Scanner.SkipCharOrNop | type-level/units/scanner.ts:140-143 | takes one character, or none at the end |
| Scanner.SymbolStep | type-level/units/scanner.ts:148-161 | a symbol becomes a one-character token with range [p, p + 1), followed by skipped spaces |
| Scanner.NaturalStep | type-level/units/scanner.ts:163-168 | a run of digits becomes one natural token with its decimal value and its range, followed by skipped spaces |
| Scanner.IdStep | type-level/units/scanner.ts:169-173 | an identifier becomes an id token with its range; no token starts only at a superscript character |
| Scanner.TokenStep | type-level/units/scanner.ts:145-176 | the worker's step reads one lexeme at the current position and goes on past it and the spaces after it |
| Scanner.WorkerTiles | type-level/units/scanner.ts:145-176 | a successful scan reads the remaining text as lexemes, in order, with only spaces before, between and after them |
| Scanner.WorkerStuck | type-level/units/scanner.ts:167-172 | a scan stops only at a superscript digit or minus that starts a token |
| Scanner.ScanSpec | type-level/units/scanner.ts:178 | scanning a string either yields tokens with increasing, non-overlapping ranges that cover exactly their text, or stops at a superscript character |
| ScannerExamples.IdStopsAtSpace | type-level/units/scanner.ts:186-189 | the identifier of `"a 123"` is `"a"` |
| ScannerExamples.MinusAlone | type-level/units/scanner.ts:234-237 | `"-"` scans to one minus token with range [0, 1) |
| ScannerExamples.TwelveDigits | type-level/units/scanner.ts:224-228 | the digits `0012` denote 12 |
| ScannerExamples.NaturalWithLeadingZeros | type-level/units/scanner.ts:225-228 | after the `-` of `"-0012"`, the natural read is 12 and it ends at offset 5 |
| ScannerExamples.NoIdAtDigit | type-level/units/scanner.ts:191-194 | after the space of `" 123"` no identifier starts |
| ScannerExamples.Digits | type-level/units/scanner.ts:196-207 | `"0"` and `"9"` are the digits 0 and 9, and `"a"` is no digit |
| ScannerExamples.NaturalZero | type-level/units/scanner.ts:210-213 | `"0"` is the natural 0 |
| ScannerExamples.MinusZeroTokens | type-level/units/scanner.ts:215-218 | `"-0"` scans to a minus at [0, 1) and the natural 0 at [1, 2) |
| ScannerExamples.NaturalWithTwoLeadingZeros | type-level/units/scanner.ts:220-223 | `"001"` is the natural 1 |
| ScannerExamples.MinusTwelveTokens | type-level/units/scanner.ts:224-228 | `"-0012"` scans to a minus at [0, 1) and the natural 12 at [1, 5) |
| ScannerExamples.NoNaturalInEmpty | type-level/units/scanner.ts:230-233 | no natural starts in `""` |
| UnitsParser.ParseIdChars0 | type-level/units/parser.ts:47-50 | never fails; appends the longest run of identifier characters |
| UnitsParser.ParseId | type-level/units/parser.ts:53-60 | after spaces, succeeds exactly when an identifier character comes next and reads a maximal identifier; otherwise fails with the identifier message at the position after the spaces |
| UnitsParser.ParseDigit | type-level/units/parser.ts:76-83 | succeeds exactly on a digit and returns its value; otherwise fails with the digit message at the current position |
| UnitsParser.ParseDigits0 | type-level/units/parser.ts:88-91 | never fails; takes the longest run of digits and yields a normal integer |
| UnitsParser.ParseDigits1 | type-level/units/parser.ts:94-101 | succeeds exactly on a digit; otherwise fails with the digit message at the current position |
| UnitsParser.ParseInteger | type-level/units/parser.ts:104-111 | a success makes progress and yields a normal integer |
| UnitsParser.ParseDigits0Value | type-level/units/parser.ts:88-91 | the integer has the given sign and the decimal value of the prefix followed by the digits read |
| UnitsParser.ParseDigits1Value | type-level/units/parser.ts:94-101 | the integer has the given sign and the decimal value of the digits read |
| UnitsParser.DigitsStart | type-level/units/parser.ts:104-110 | the digits of an integer start after the spaces and an optional minus, which gives the sign |
| UnitsParser.ParseIntegerSpec | type-level/units/parser.ts:104-111 | succeeds exactly when a digit stands where the digits start; the value is the maximal run of digits, negated after a minus; otherwise fails with the digit message at that position |
| UnitsParser.ParseAsciiExponent | type-level/units/parser.ts:114-121 | after the spaces, a `^` gives exactly the integer read after it (and its spaces); anything else fails with the exponent message at that position |
| UnitsParser.ParseUnicodeSuperscriptInteger | type-level/units/parser.ts:140-141 | always fails with `"TODO"` at the current position |
| UnitsParser.ParseExponent | type-level/units/parser.ts:144-159 | is the ASCII exponent's result, since the superscript parser always fails |
| UnitsParser.ParseTerm | type-level/units/parser.ts:162-173 | succeeds exactly when an identifier is read, with progress and normal exponents; otherwise the identifier's failure |
| UnitsParser.ParseTermSpec | type-level/units/parser.ts:162-173 | the term maps exactly the identifier read to the exponent, or to 1 when no exponent follows, and ends after whichever was read last |
| UnitsParser.ParseTailTerm | type-level/units/parser.ts:176-179 | the joining `*` is optional: after the spaces, a `*` is skipped and a term must follow; otherwise the result is the term read right there |
| UnitsParser.ParseTailTerms | type-level/units/parser.ts:182-185 | never fails, keeps exponents normal, and stops exactly where no further tail term can be read |
| UnitsParser.ParseTailTermsAccumulates | type-level/units/parser.ts:182-185 | the terms read are multiplied onto the accumulated ones: each exponent is the accumulated one plus the one read, so a repeated name adds up |
| UnitsParser.ParseTerms1 | type-level/units/parser.ts:188-195 | succeeds exactly when a first identifier is read, otherwise with that failure |
| UnitsParser.ParseTerms0 | type-level/units/parser.ts:198-201 | never fails; with no identifier ahead it is the dimensionless `{}` at the same position |
| UnitsParser.ParseSingleFractionTail | type-level/units/parser.ts:204-211 | succeeds exactly when `/` follows the spaces; otherwise fails with the fraction message at the position after them |
| UnitsParser.ParseUnitsBody | type-level/units/parser.ts:214-225 | never fails and keeps exponents normal |
| UnitsParser.ParseUnitsBodySpec | type-level/units/parser.ts:214-225 | with a `/` clause every exponent is the numerator's minus the denominator's; without one the body is the numerator |
| UnitsParser.ParseUnits | type-level/units/parser.ts:228-243 | succeeds exactly when only spaces are left after the body, with the body's units; otherwise fails with the end message at the first character left over |
| UnitsParser.UnitOrFailure | type-level/units/parser.ts:383-390 | succeeds exactly when the parse does, with a reduced map that has the parsed exponents; otherwise the parse's own failure, unchanged: the end message at a non-space character of the view |
| UnitsParserExamples.IdCannotStartWithDigit | type-level/units/parser.ts:256-262 | `" 123"` fails with the identifier message at position 1 |
| UnitsParserExamples.EmptyInteger | type-level/units/parser.ts:300-306 | `""` fails with the digit message at position 0 |
| UnitsParserExamples.MinusWithoutDigits | type-level/units/parser.ts:307-313 | `"-"` fails with the digit message at position 1 |
| UnitsParserExamples.NegativeZero | type-level/units/parser.ts:285-288 | `"-0"` reads as `Int<0>` |
| UnitsParserExamples.BareName | type-level/units/parser.ts:320-323 | `"m"` reads as `{m: Int<1>}` |
| UnitsParserExamples.TermWithoutExponent | type-level/units/parser.ts:162-173 | a name followed by digits, or by `^` with no integer, is a term with exponent 1 that leaves the rest unread |
| UnitsParserExamples.EmptyTerms | type-level/units/parser.ts:329-332 | no terms at all is the dimensionless `{}` |
| UnitsParserExamples.TermsStopAtDigits | type-level/units/parser.ts:338-341 | `"m123"` reads as `{m: Int<1>}` and stops before the digits |
| UnitsParserExamples.DanglingCaret | type-level/units/parser.ts:359-365 | `"s^"` fails with the end message at position 1 |
| UnitsParserExamples.IdAfterSpace | type-level/units/parser.ts:251-254 | the identifier of `" a 123"` is `"a"` |
| UnitsParserExamples.DigitZeroAndNine | type-level/units/parser.ts:264-271 | `"0"` and `"9"` are the digits 0 and 9 |
| UnitsParserExamples.LetterIsNoDigit | type-level/units/parser.ts:272-278 | `"a"` fails with the digit message at position 0 |
| UnitsParserExamples.IntegerZero | type-level/units/parser.ts:281-284 | `"0"` reads as `Int<0>` |
| UnitsParserExamples.IntegerLeadingZeros | type-level/units/parser.ts:290-293 | `"001"` reads as `Int<1>` |
| UnitsParserExamples.SpacedNegativeInteger | type-level/units/parser.ts:294-298 | `" -0012"` reads as `0 - (6 + 6)` |
| UnitsParserExamples.AsciiExponentMinusOne | type-level/units/parser.ts:315-318 | `"^-1"` reads as `Int<-1>` |
| UnitsParserExamples.NegativeExponentOf | type-level/units/parser.ts:315-318 | `^-d` reads as minus the digit `d`, for every digit |
| UnitsParserExamples.SpacedTerm | type-level/units/parser.ts:324-327 | `" s ^ -6"` reads as `{s: Int<-6>}` |
| UnitsParserExamples.TwoTerms | type-level/units/parser.ts:334-337 | `"m s^-2"` reads as the terms `{m: Int<1>, s: Int<-2>}` |
| UnitsParserExamples.UnitsTwoTerms | type-level/units/parser.ts:343-346 | `"m s^-2"` parses as the units `{m: Int<1>, s: Int<-2>}` |
| UnitsParserExamples.JoinerOptional | type-level/units/parser.ts:347-350 | `"s m^-2"` and `"s * m^-2"` both parse, to the same units `{s: Int<1>, m: Int<-2>}` |
| UnitsParserExamples.RepeatedName | type-level/units/parser.ts:351-354 | `"m m"` parses as `{m: Int<2>}` |
| UnitsParserExamples.Fraction | type-level/units/parser.ts:355-358 | `"m/s^2"` parses as `{m: Int<1>, s: Int<-2>}` |
| UnitsParserExamples.ReciprocalOnly | type-level/units/parser.ts:366-369 | `"/s"` parses as `{s: Int<-1>}` |
| UnitsParserExamples.EmptyDenominator | type-level/units/parser.ts:370-373 | `"m/"` parses as `{m: Int<1>}` |
| UnitsParserExamples.TwoFractions | type-level/units/parser.ts:374-380 | `"m/s/s"` fails with the end message at position 3 |
| Representation.AddDimension | type-level/units/representation.ts:9-16 | the exponent of a name in a product is the sum of its exponents, a missing one counting as 0 |
| Representation.SubDimension | type-level/units/representation.ts:19-26 | where the numerator has the name, the difference of exponents; where only the denominator has it, the denominator's exponent unchanged |
| Representation.Normalize | type-level/units/representation.ts:32-34 | keeps exactly the names with a non-zero exponent, with their values unchanged |
| Representation.Neg | type-level/units/parser.ts:220 | same names, every exponent negated and normal |
| Representation.NormalizeSpec | type-level/units/representation.ts:32-34 | every exponent is kept, and normal input leaves no zero exponent |
| Representation.NormalizeReduced | type-level/units/representation.ts:32-34 | a map without zero exponents is left as it is |
| Representation.NormalizeIdempotent | type-level/units/representation.ts:32-34 | normalizing twice is normalizing once |
| Representation.Extensional | type-level/units/representation.ts:6 | two reduced maps with the same exponents are equal |
| Representation.MulSpec | type-level/units/representation.ts:35-37 | the exponents of a product are the sums of the factors', and the product has no zero exponents |
| Representation.MulCommutes | type-level/units/representation.ts:35-37 | `mul(r1, r2) == mul(r2, r1)` |
| Representation.MulAssociates | type-level/units/representation.ts:35-37 | `mul` is associative |
| Representation.MulDimensionless | type-level/units/representation.ts:35-37 | `{}` is the unit of `mul` |
| Representation.MulNeg | type-level/units/parser.ts:220 | a map times its negation is `{}` |
| Representation.DivSpec | type-level/units/representation.ts:38-40 | names of r1 get r1 - r2; a name only r2 has keeps r2's exponent |
| Representation.DivKeepsDenominatorSign | type-level/units/representation.ts:26 | `div({}, {s: 1})` is `{s: 1}` |
| Representation.QuotientSpec | type-level/units/representation.ts:38-40 | the intended quotient has exponents r1 - r2 everywhere, no zero exponents, and undoes `mul` |
| Representation.DivAgreesOnNumeratorKeys | type-level/units/representation.ts:38-40 | on the numerator's names, `div` agrees with the intended quotient |
| Printer.ShowSuperscriptDigit | type-level/units/printer.ts:9 | one superscript digit character |
| Printer.TenNat | type-level/units/printer.ts:11 | `Nat<5>` plus `Nat<5>` denotes ten |
| Printer.SuperscriptDigitValue | type-level/units/syntax.ts:25-36 | decoding a superscript digit gives its index in the table |
| Printer.SuperscriptDigitRoundTrip | type-level/units/printer.ts:9 | decoding the digit printed for d gives d back |
| Printer.DigitsNonZeroSpec | type-level/units/printer.ts:12-19 | the digits read back as the magnitude, are empty exactly for 0, and never start with superscript zero |
| Printer.DigitsSpec | type-level/units/printer.ts:21-24 | zero prints as a single superscript zero; the digits always read back as the magnitude |
| Printer.SuperscriptIntegerSpec | type-level/units/printer.ts:26-27 | a superscript minus comes first exactly when the sign is `-`; the text reads back as the value |
| Printer.ShowTermSpec | type-level/units/printer.ts:29-32 | a term is the bare name exactly when the exponent is 1; otherwise the name and then the superscript integer |
| Printer.ShowDimensionless | type-level/units/printer.ts:34-35 | `{}` prints as `""` |
| Printer.ShowRepresentationSnoc | type-level/units/printer.ts:34-35 | one term per name in the given order, separated by single spaces |
| MessageBuilder.CreateMessageBuffer | type-level/units/message-builder.ts:18-27 | one empty cell per source character, and one more with `""` |
| MessageBuilder.CreateMessageBufferSpec | type-level/units/message-builder.ts:18-27 | a new buffer holds the source text and no message |
| MessageBuilder.ToChars | type-level/units/message-builder.ts:19 | one-character pieces that concatenate back to the string |
| MessageBuilder.PutCharInfo | type-level/units/message-builder.ts:37-43 | only the cell at the index changes |
| MessageBuilder.InsertReadingMessage | type-level/units/message-builder.ts:44-48 | the message is appended to that cell's reading list, and nothing else changes |
| MessageBuilder.InsertTrailingMessage | type-level/units/message-builder.ts:49-53 | the message is appended to that cell's trailing list, and nothing else changes |
| MessageBuilder.CharRowsToTableSpec | type-level/units/message-builder.ts:61-64 | each row adds its character as a key with its bold form |
| MessageBuilder.CharTableSpec | type-level/units/message-builder.ts:66-69 | the keys are exactly the one-character digits and ASCII letters, each mapped to its bold counterpart by position |
| MessageBuilder.CharToBoldSpec | type-level/units/message-builder.ts:71-74 | a letter or digit becomes bold, and any other character is kept |
| MessageBuilder.ToBoldSpec | type-level/units/message-builder.ts:76-79 | each character is replaced by its bold form, so the count is kept |
| MessageBuilder.EmptyBufferShowsSource | type-level/units/message-builder.ts:28-35 | a buffer without messages prints as the source |
| MessageBuilder.NoDiagnostics | type-level/units/message-builder.ts:95-96 | without diagnostics, the message is the source |
| MessageBuilder.InsertMessageKeepsSource | type-level/units/message-builder.ts:81-84 | inserting a message keeps the buffer's size and source text |
| MessageBuilder.MessageCountUpdate | type-level/units/message-builder.ts:37-43 | replacing one cell changes the message count only by that cell's change |
| MessageBuilder.InsertMessageSpec | type-level/units/message-builder.ts:81-84 | a zero-width range adds a reading mark at its end, and any other range a trailing mark there |
| MessageBuilder.PushMessagesSpec | type-level/units/message-builder.ts:86-92 | the source text is kept, one message is added per diagnostic that points into the buffer, and every cell keeps its old lists followed by the marks of the diagnostics ending there, in list order |
| MessageBuilder.PushMessagesCell | type-level/units/message-builder.ts:86-92 | one cell after pushing: its character, then its old reading and trailing lists followed by the new marks in list order |
| MessageBuilder.BuildErrorMessageSpec | type-level/units/message-builder.ts:95-96 | taking every message out of the final buffer gives the source back |
| MessageBuilder.ShowOneCell | type-level/units/message-builder.ts:28-35 | a buffer with one replaced cell prints the source around that cell |
| MessageBuilder.PushOne | type-level/units/message-builder.ts:86-92 | one diagnostic changes exactly the cell at its range's end |
| MessageBuilder.ShowReadingCell | type-level/units/message-builder.ts:31 | reading messages come before the character |
| MessageBuilder.ShowTrailingCell | type-level/units/message-builder.ts:31 | trailing messages come after the character |
| MessageBuilder.OneReadingDiagnostic | type-level/units/message-builder.ts:83 | a zero-width diagnostic puts `🕳👈❮bold❯` right before the character at its end |
| MessageBuilder.OneTrailingDiagnostic | type-level/units/message-builder.ts:84 | a non-empty range puts `👈❮bold❯` after the character at its end offset, the first one past the range |
| MessageBuilder.TrailingDiagnosticAtEnd | type-level/units/message-builder.ts:84 | a non-empty range that ends at the end of the source puts its mark after the whole source |
| MessageBuilder.OneTrailingDiagnosticAfterRange | type-level/units/message-builder.ts:84 | corrected: the trailing mark comes right after the last character of the range |
| MessageBuilder.TrailingMarkOneLate | type-level/units/message-builder.ts:84 | for `/` at [3, 4) in `m/s/s`, the mark follows the next `s` as written, and follows the `/` as intended |
| Units.FailurePrecedence | type-level/units.ts:16-76 | a parse failure of u1 wins whatever u2 is; then a parse failure of u2 |
| Units.AddOrFailureSpec | type-level/units.ts:16-38 | succeeds with u1 exactly when both have the same exponents; otherwise "Units mismatch." with both texts and both printed forms |
| Units.AddOrFailureSymmetric | type-level/units.ts:16-38 | whether two units may be added does not depend on their order |
| Units.AddOrFailureReflexive | type-level/units.ts:16-38 | units that parse may be added to themselves |
| Units.MulOrFailureSpec | type-level/units.ts:40-57 | succeeds exactly when both parse, with the printed product, whose exponents are the sums |
| Units.MulOrFailureCommutes | type-level/units.ts:40-57 | the printed product does not depend on the operand order |
| Units.DivOrFailureSpec | type-level/units.ts:59-76 | succeeds exactly when both parse, with the printed `div` of the two maps |
| Boxes.Create | box.ts:20-23 | position and size are copied unchanged |
| Boxes.SplitTopSpec | box.ts:29-34 | the top part has the asked height, and the two parts stack into the box |
| Boxes.SplitBottomSpec | box.ts:39-44 | the bottom part has the asked height, and the two parts stack into the box |
| Boxes.SplitLeftSpec | box.ts:49-54 | the left part has the asked width, and the two parts sit side by side in the box |
| Boxes.SplitRightSpec | box.ts:59-64 | the right part has the asked width, and the two parts sit side by side in the box |
| Boxes.StackUnique | box.ts:29-44 | a stacking is determined by the top part's height |
| Boxes.BesideUnique | box.ts:49-64 | a side-by-side split is determined by the left part's width |
| Boxes.SplitBottomIsSplitTop | box.ts:29-44 | splitting off a bottom of height h is splitting off a top of the remaining height |
| Boxes.SplitRightIsSplitLeft | box.ts:49-64 | splitting off a right part of width w is splitting off a left part of the remaining width |
| ArrayEx.MaxValueSpec | array.ts:2-7 | the result is at least the initial value and every mapped value, and equals one of them |
| ArrayEx.MaxValueEmpty | array.ts:2-7 | over no items the result is the initial value |
| ArrayEx.MaxValueLeast | array.ts:2-7 | the result is the least upper bound of the initial value and the mapped values |
| FixedSizeArrays.FromArrayOrError | fixed-size-array.ts:9-14 | the array itself exactly when its length is right; otherwise the error with both lengths |
| FixedSizeArrays.LastAppended | fixed-size-array.ts:15 | the last item of a list extended by `x` is `x` |
| FixedSizeArrays.MakeFixedSizeArraySpec | fixed-size-array.ts:2-5 | the tuple grows at the front with copies of T to the asked length |
| FixedSizeArrays.FixedSizeArraySpec | fixed-size-array.ts:7 | `FixedSizeArray<L, T>` is exactly L copies of T |
| Polyline.At | graphics/visuals/polyline.ts:25-27 | a number inside the list, `undefined` outside it |
| Polyline.PathBuffer.constructor | graphics/visuals/polyline.ts:19-20 | a new buffer has no segments |
| Polyline.PathBuffer.MoveTo | graphics/visuals/polyline.ts:22 | appends exactly (0, x, y), and whole segments gain one |
| Polyline.PathBuffer.LineTo | graphics/visuals/polyline.ts:23 | appends exactly (1, x, y), and whole segments gain one |
| Polyline.PathBuffer.Serialize | graphics/visuals/polyline.ts:29 | a new array with every number, in insertion order |
| Polyline.EmptyCount | graphics/visuals/polyline.ts:28 | no numbers means count 0 |
| Polyline.CountIsWhole | graphics/visuals/polyline.ts:28 | for whole segments, the count is a whole number |
| Polyline.AppendSegmentSpec | graphics/visuals/polyline.ts:22-28 | appending a segment adds one to the count, makes it readable at the old count, and leaves earlier items unchanged |
| Polyline.ItemInRange | graphics/visuals/polyline.ts:25-28 | item i is defined exactly when 0 <= i < count |
| Polyline.MoveThenLine | graphics/visuals/polyline.ts:22-27 | a move and a line are read back in order |
| DetailDataParser.ParseVariantSpec | kabu/detail-data-parser.ts:28-36 | each of the four names reads as its variant, and any other text as `?` |
| DetailDataParser.TrimStart | kabu/detail-data-parser.ts:46 | drops exactly the leading white space |
| DetailDataParser.TrimEnd | kabu/detail-data-parser.ts:46 | drops exactly the trailing white space |
| DetailDataParser.TrimPadded | kabu/detail-data-parser.ts:46 | trimming padded text gives the text back |
| DetailDataParser.TrimIdempotent | kabu/detail-data-parser.ts:46 | trimming twice is trimming once |
| DetailDataParser.PaddedVariant | kabu/detail-data-parser.ts:46 | a variant name padded with white space reads as its variant |
| DetailDataParser.SkipJsSpaces | kabu/detail-data-parser.ts:49 | `\s*` takes the longest run of white space |
| DetailDataParser.SkipDigits | kabu/detail-data-parser.ts:49 | `\d+` takes the longest run of digits |
| DetailDataParser.ParseValueCell | kabu/detail-data-parser.ts:49-50 | a failure is the `values` error; a success means digits start after the leading white space and only white space follows the number or range |
| DetailDataParser.ValueCellComplete | kabu/detail-data-parser.ts:49-50 | `N` reads as [N, N] and `N~M` as [N, M], with white space around |
| DetailDataParser.ValueCellSound | kabu/detail-data-parser.ts:49-50 | every cell that is read matches the pattern and denotes the pair read |
| DetailDataParser.ValueCellsSpec | kabu/detail-data-parser.ts:42-43 | the value cells are the cells after the first three, minus the last two |
| DetailDataParser.MapOrThrowSpec | kabu/detail-data-parser.ts:48-52 | mapping succeeds exactly when every item does, keeps their order, and otherwise throws the first failure |
| DetailDataParser.ParseValueCellsSpec | kabu/detail-data-parser.ts:48-52 | the value cells are read exactly when every one matches, in order |
| DetailDataParser.ParseRowSpec | kabu/detail-data-parser.ts:42-53 | a row is read exactly when it has 17 cells whose 12 value cells match; the variant comes from the trimmed first cell |
| DetailDataParser.UnclassedRowsSpec | kabu/detail-data-parser.ts:40 | exactly the rows without a class are kept, each as many times as it occurs |
| DetailDataParser.UnclassedRowsAppend | kabu/detail-data-parser.ts:40 | the filter keeps the order: the rows kept from two lists one after the other are those kept from the first, then those from the second |
| DetailDataParser.ParseRowsSpec | kabu/detail-data-parser.ts:41-55 | every row is read in order, or the first failing row's error is thrown |
| DetailDataParser.CollectWeeklyPredictionsSpec | kabu/detail-data-parser.ts:38-55 | the table is read exactly when every row without a class is; the i-th prediction is the reading of the i-th row without a class |

## Left out

- The probability cell (`Number(...) * 0.01` after a regular expression) is not modelled. It is floating point, and its regular expression `.+` needs backtracking. The row keeps the probability cell's text instead. So `probability` errors thrown for a present but malformed cell are not modelled.
- The DOM traversal (`querySelectorAll`, `classList`, `innerText`) becomes a list of rows. Each row holds its class names and the text of its cells.
- The text of the length error is not modelled. It embeds `JSON.stringify` of the array. The error keeps both lengths instead.
- JavaScript numbers are exact reals in `Boxes`, `ArrayEx` and `Polyline`, so rounding is not modelled. Decimal cells are natural numbers, so `Number` of a long digit string losing precision is not modelled.
- `PathBuffer.itemKind` and its siblings are modelled on values (`At`, `ItemAt`), and `count` is a real division, as in the source. `Serialize` returns a fresh `array<real>` in place of a `Float64Array`.
- The `Polyline` constructor's division by the canvas size and its `render` are not modelled. The same goes for the canvas and DOM helpers. They are I/O and pixel output.
- The runtime `add`, `sub`, `mul` and `div` in `type-level/units.ts` are not modelled. They are casts around JavaScript arithmetic. Only the unit checks that type them are. `add` and `sub` share `AddOrFailure`.
- The key order of `showRepresentation` comes from `unionToTuple`, which the language does not specify. The printer takes the order as a parameter (`keys`, or `order` in `Units`).
- Printer.ShowRepresentationSnoc: states the printed text for any key order, not for the one order the compiler would pick.
- `type-level/units/parser.ts` imports several names that its stream module does not define. They are reconstructed from their doc comments and the asserted results:
  - `anyOf`, `noneOf`, `parseError` and `streamFromString` (`Streams.AnyOf`, `Streams.NoneOf`, `Streams.ParseError`, `Streams.CharStreamFromString`);
  - `mergeError`, which reports the ASCII exponent's failure (`UnitsParser.MergeError`);
  - `neg` from the representation module (`Representation.Neg`, every exponent negated);
  - `representationOrFailure`, taken to be `unitOrFailure`;
  - `String.toChars` (`MessageBuilder.ToChars`).
- `UnitsDiagnosticKind` is not defined anywhere. A diagnostic is taken to be a range and a message (`MessageBuilder.Diagnostic`).
- The superscript exponent parser is a stub in the source. It is modelled as the failure it always returns. In the scanner no branch accepts a superscript at the start of a token, and the scan ends with `SuperscriptAt(position)`.
- Strings are sequences of Unicode scalar values, not UTF-16 code units. The bold letters outside the Basic Multilingual Plane are one character each here. Each is two code units in the source, and the template-literal recursion would see them that way.
- The end-of-input test `isEos` in `type-level/parser.ts:66-67` checks `stream["remaining"] extends []`. `parseUnits` (`type-level/units/parser.ts:236`) applies it to a character stream, whose `remaining` is a string, and `""` does not extend `[]`. Read literally, `parseUnits` would never succeed. The model's end test (`Streams.AtEnd`) is `remaining == ""`, which gives the results the source asserts. `StreamKind` (`type-level/parser.ts:52`) takes an item kind and a diagnostic kind, and the units parser names it without them. The model has the one `Streams.CharStream` type for both.
- ArrayEx.MaxValueSpec: when two items map to equal values, the strict `<` keeps the earlier one. That choice is not visible in the result, a number, so it is not stated.
- Compiler machinery is replaced by plain recursion and a `Result` datatype: `equals`, `cast`, `unionToTuple`, the recursive-object depth workaround and the type-level `Result`.
- `color.ts`, `document.ts`, `kabu-ex.ts` and the plotter are not modelled. They are canvas and DOM code, or bundle copies of modelled modules.

## Findings

| source | as written | input that shows it | evidently intended | confidence | as-written member | corrected member |
|---|---|---|---|---|---|---|
| type-level/units/representation.ts:26 | a name only the denominator has keeps its exponent with the sign unchanged | `div<{}, {s: Int<1>}>` is `{s: Int<1>}` | the reciprocal, `{s: Int<-1>}`, as `mul<r1, neg<r2>>` gives | high, not executed | Representation.DivKeepsDenominatorSign | Representation.QuotientSpec |
| type-level/units/message-builder.ts:84 | a range that covers text gets its trailing mark after the character at `range.end`, the first one outside the range | source `m/s/s`, diagnostic on the `/` at [3, 4): the mark follows the last `s` | the mark right after the last character of the range, after the `/` | medium, not executed | MessageBuilder.OneTrailingDiagnostic | MessageBuilder.OneTrailingDiagnosticAfterRange |
