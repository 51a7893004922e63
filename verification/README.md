# The JSON reader and writer of jsoniter, modelled and proved in Dafny

The project models the streaming JSON reader (`Iterator`), the JSON writer (`Stream`) and the fast paths built on
them, and proves what they promise. `dafny verify dfyconfig.toml` checks everything.

**Cursor.** `IterCore.Iterator` is a class with the fields of the original: an array buffer, `head`, `tail`,
`inputOffset`, the capture fields, `depth` and the sticky error. A ghost constant `input` is everything the buffer
and the reader ever deliver; the class invariant ties the buffer to it. The reader is a list of chunks, of any
sizes, empty ones included, and a final error.

**Machines.** Each imperative method is proved equal to a pure function on (`input`, position). The functions know
nothing of buffers, so every theorem about them holds for every way of splitting the input: `StringMachines`,
`IntMachines`, `FloatMachines`, `ValueMachines`, `SloppyMachines`, `LookupMachines`, `StructMachines`. One thing does
depend on the buffering, what skipping makes of a number: a `Mode` holds the chunks of the reader, and `NumberSkips`
is the exact outcome, for every number text, valid or not, by the place where the buffer with its first byte ends.

**Grammar.** `Grammar` has concrete syntax trees with all their whitespace, their texts and their values. The
well-formed ones are section 2 of RFC 8259; `Rfc8259` has the rules of that grammar with their bytes written out, and
the two are equivalent (`JsonIff`). The shaped ones take two liberties that the code takes: any run of number
characters for a number, and `null` for a name behind a comma. Which runs are taken for numbers is a predicate of the
text, the byte behind it and the part of it that is in one buffer: all of them by reading, those of `TakenBySkip` by
skipping. The main theorems are inductions over the trees: exactly the shaped documents whose numbers are taken are
read or skipped (`TakenIff`), they are JSON exactly if neither liberty is taken (`IsJsonIff`), the sloppy skipper
stops where the strict one does, a lookup finds exactly what its path leads to, a written tree is read back, and every
struct decoder assigns the same fields.

**Tables.** What the leaves of the machines do is stated a second time without them, with the bytes of the standard or
of the source's tables written out: strings in `StringUnits` and `WrittenUnits`, integers in `IntTheorems`, the fast
path of the floats in `FloatTheorems`, the layout in `LayoutTheorems`, the case of names in `CaseTheorems`, and the
pulling readers in `PullTheorems`.

**What the code does not promise.** Some properties one would expect are false of the code. Each is stated with
a concrete input and with the exact condition where that is possible:

- not only JSON is read and skipped (`NumberRunIsRead`, `NullNameIsRead`, `MinusZeroIsSkipped`; exact conditions:
  `TakenIff`, `TakenIsJsonIff`), and valid numbers that strconv rejects are not skipped (`ValidNumberTakenIff`);
- what is skipped depends on where the chunks of a reader end (`SplitDecides`; exact condition: `TakenIff`; where it
  does not: `SkipIgnoresBuffering`);
- the overflow guard of the integer readers misses numbers (`OverflowMissed`; the value is exact if and
  only if the number fits: `UintExactIffFits`; what is detected: `OverflowReportedIff`); the 8-bit and 16-bit readers
  miss none (`UnsignedNarrow`);
- a fraction that begins with a zero is taken for an integer where a chunk ends behind the zero (`ZeroDotSplit`;
  exact condition: the contract of `ReadUint`);
- an unpaired surrogate escape takes the escape behind it along and can break a pair (`PairLostBehindSurrogate`;
  exact condition: `StandardIffNoSplit`);
- lookup takes the first of repeated names and `Read` the last (`RepeatedNameDiffers`; exact condition: `AgreeIff`);
- the sloppy skipper takes texts that the strict one does not (`SloppyTakesMore`; exact condition:
  `SkippersAgreeIff`), and does not count both kinds of container against the limit of 10000 (`CountingEndsAtDocument`);
- hash dispatch differs from the map for a colliding name (`CollidingNames`; exact condition: `HashSelectsField`);
- a name read is hashed otherwise than `calcHash` does it, in two classes: names that are not ASCII behind their
  first escape, and, unless names are case-sensitive, names that have letters beyond ASCII to lower
  (`EscapedNonAsciiDiffers`, `UpperNonAsciiDiffers`; exact conditions on what is hashed: `HashedAlikeIff`,
  `HashedAlikeUnlessCased`);
- the struct decoders for one to ten fields differ from the general one on three more classes of names: names with
  escapes where the configuration asks for simple names, which the general decoder does not decode; `null` behind a
  comma, which only the general decoder takes for a name; and names with a control character before their first
  escape, which only the tables take (`SimpleNamesDiffer`, `NullNamesDiffer`, `ControlNamesDiffer`; exact condition
  for all classes: `KeysAgreeIff`).

"Skippable" numbers are those for which strconv accepts the text or is not asked. strconv is a parameter, three
predicates on texts; no theorem about reading with number texts depends on it. Where a theorem says which texts
beyond JSON are skipped, it assumes that of texts made of number characters strconv and math/big accept only
those of Go's decimal syntax (`AcceptsOnlyDecimals`).

## Model

| member | source | states |
|---|---|---|
| `IterCore.Iterator.Parse` | iter.go:83-93 | a fresh cursor over any chunks that fit the buffer stands at offset 0 of their concatenation |
| `IterCore.Iterator.LoadMore` | iter.go:248-277 | fails exactly when the whole input is delivered; success moves the window to the bytes behind `tail`, failure leaves the buffer alone and sets the error once; the class invariant and an open capture survive |
| `IterCore.Iterator.ReadByte` | iter.go:234-246 | gives the next input byte and steps one on, whatever the chunks; at the end gives 0 and the error of the exhausted reader |
| `IterCore.Iterator.NextToken` | iter.go:177-193 | stops behind the first byte that is not whitespace, in however many buffers that byte is found; whitespace to the end gives 0 and an error |
| `IterCore.Iterator.IsNextTokenBuffered` | iter.go:160-175 | true exactly when it has moved `head` onto a token inside the buffer; the whitespace-skipped position never changes |
| `IterCore.Iterator.UnreadByte` | iter.go:279-284 | steps back one byte only while there is no error |
| `IterCore.Iterator.IncrementDepth` | iter.go:329-336 | counts one more container and errs exactly beyond 10000 |
| `IterCore.Iterator.DecrementDepth` | iter.go:338-345 | counts one container less and errs below 0 |
| `IterCore.Iterator.StartCaptureTo` | iter_skip.go:50-56 | opens a capture over the input from a position in the buffer, with a given prefix |
| `IterCore.Iterator.StopCapture` | iter_skip.go:62-71 | unless a load failed on the reader since the start, returns the prefix and exactly the input between start and cursor, however many refills and unreads came between |
| `Literals.SkipThreeBytes` | iter_skip.go:120-133 | succeeds exactly when the three bytes are next, over any chunk border; otherwise an error |
| `Literals.SkipFourBytes` | iter_skip.go:101-118 | the same for four bytes |
| `IterStr.ParseU4` | iter_str.go:254-279 | four hex digits of either case give their number and are consumed; anything else leaves the cursor |
| `IterStr.ReadU4` | iter_str.go:281-311 | the same where the digits are split over chunks |
| `IterStr.ReadEscapedChar` | iter_str.go:194-252 | appends what the pure escape decoder gives, surrogate pairs included, and stops where it does; errs where it is undefined |
| `IterStr.ReadStringInner` | iter_str.go:34-81 | on any buffering returns the decoded string and stops past its quote exactly when the input holds a valid string there; otherwise an error |
| `IterStr.ReadRawStringInner` | iter_str.go:101-192 | on any buffering accepts exactly the valid strings, stops at the same place, and holds their bytes as a view of the current buffer or a copy, with the right escape flag |
| `IterStr.ReadString` | iter_str.go:11-25 | string, null as the empty string, or error, decided by the token |
| `IterStr.ReadRawString` | iter_str.go:85-99 | the same for raw strings; null is the nil string |
| `IterStr.RawString.Realize` | rawstring.go:14-21 | a view becomes a copy of the same bytes |
| `IterStr.RawAgreesWithDecoded` | iter_str.go:101-192 | a raw string just read decodes to what decoding at its place in the input gives |
| `IterStr.RawToString` | rawstring.go:24-43 | returns the decoded text; the panic behind the private iterator is unreachable |
| `StringMachines.RawEndIffDecode` | iter_str.go:34-192 | raw validation accepts a string exactly when decoding does, and both end at the same byte |
| `StringMachines.RawEndIsStringEnd` | iter_skip_sloppy.go:98-163 | every valid string ends at the first quote that the left-to-right escape automaton finds unescaped |
| `StringMachines.DecodeLocal` | iter_str.go:34-81 | decoding looks at nothing but the string itself: the same bytes elsewhere decode the same |
| `StringUnits.ReadsAsMeant` | iter_str.go:194-252 | every string of section 7 of RFC 8259 - bytes for themselves, the eight short escapes with the bytes the RFC gives them, and code units in four digits of either case, in any mix - is read to its closing quote, and as the UTF-8 of what it stands for exactly if no pair of surrogates is torn apart; stated with literal tables |
| `StringUnits.SomeUnits` | iter_str.go:101-192 | nothing else is accepted: every string that is read consists of such units |
| `StringUnits.UnitsDecode` | iter_str.go:194-252 | the standard decoding used in `StandardIffNoSplit` gives each such string what it stands for |
| `Escapes.StandardIffNoSplit` | iter_str.go:194-252 | every valid string, plain text and escapes in any mix, is decoded as UTF-16 decoding has it (a surrogate outside a pair is U+FFFD by itself) exactly when the escape that an unpaired surrogate takes along is never the first half of a pair |
| `Escapes.PairLostBehindSurrogate` | iter_str.go:200-232 | a concrete string where it is not: the pair behind an unpaired surrogate is lost |
| `Escapes.DecodeEscapeText` | iter_str.go:194-252 | any sequence of `\u` escapes, digits in either case, decodes to the UTF-8 form of the runes that pairing from the left gives |
| `Escapes.EscapedScalarsDecode` | iter_str.go:194-311 | every sequence of Unicode scalar values written as `\u` escapes, with surrogate pairs above U+FFFF, decodes to its UTF-8 encoding |
| `Escapes.DecodeKeepsUtf8` | iter_str.go:34-81 | a string whose text is valid UTF-8 decodes to valid UTF-8 |
| `Utf8.EncodeDecode` | iter_str.go:205-229 | the UTF-8 encoding of every scalar value is one character that decodes to it |
| `Utf8.DecodeEncode` | stream_str.go:275-300 | every character that `DecodeRuneInString` accepts is the encoding of its rune |
| `StreamStr.WriteString` | stream_str.go:311-329 | appends the quoted escaped form, the fast path and the slow path alike |
| `StreamStr.WriteStringSlowPath` | stream_str.go:331-372 | appends the rest of the string, escaped, and the closing quote |
| `StreamStr.StringRoundTrip` | stream_str.go:311-372 | reading back what is written gives every byte sequence exactly, valid UTF-8 or not, and consumes exactly the written bytes |
| `StreamHtml.WriteStringWithHTMLEscaped` | stream_str.go:221-239 | appends the quoted HTML-safe form |
| `StreamHtml.HtmlRoundTrip` | stream_str.go:221-308 | reading back the HTML-safe form gives the string with each undecodable byte replaced by U+FFFD |
| `StreamHtml.SanitizeKeepsValid` | stream_str.go:275-285 | on valid UTF-8 nothing is replaced, so the round trip is exact |
| `StreamHtml.SanitizeIsValid` | stream_str.go:275-285 | what is read back is always valid UTF-8 |
| `StreamHtml.EscapeHtmlIsSafe` | stream_str.go:241-308 | the written text is valid UTF-8 without control characters, `<`, `>`, `&`, U+2028 or U+2029 |
| `WrittenUnits.StringIsUnits` | stream_str.go:311-372 | what is written, byte by byte: short escapes for quote, backslash, line feed, carriage return and tab, a code unit in lower-case digits for every other control character, and every other byte for itself |
| `WrittenUnits.HtmlIsUnits` | stream_str.go:221-308 | the same for the HTML-safe form, character by character: also `<`, `>`, `&`, U+2028 and U+2029 as code units, and U+FFFD as one for exactly the bytes that start no character |
| `IterInt.InitIntDigits` | iter_int.go:14-22 | the digit table maps each byte to its digit or to the invalid mark |
| `IterInt.ReadUint` | iter_int.go:122-218 | the unrolled reader, in any buffer layout and over refills, returns what the simple digit loop returns; a zero with a dot behind it is an error exactly when the buffer does not end between them; the body is the same at 64 bits (iter_int.go:244-340) |
| `IterInt.ReadUnsigned` | iter_int.go:60-67 | an unsigned value up to the limit of its type, or an error |
| `IterInt.FlatZeroDot` | iter_int.go:124-127 | in a flat buffer the dot is always buffered, so such a fraction is always refused |
| `IterInt.ZeroDotSplit` | iter_int.go:124-127 | `0.5,` read as an integer: refused in one chunk, read as 0 when a chunk ends behind the zero |
| `IterInt.ReadSigned` | iter_int.go:41-57 | a signed value of its type, the minimum included, or an error |
| `IntMachines.DigitLoopMeaning` | iter_int.go:183-218 | the digit loop accepts only the number written modulo the width; an overflow error implies that it does not fit; the number itself is returned when it fits |
| `IntMachines.UintExactIffFits` | iter_int.go:122-218 | the reader returns the number written if and only if it fits the width |
| `IntMachines.OverflowReportedIff` | iter_int.go:202-207 | overflow is reported if and only if some prefix of the digits is smaller, modulo the width, than the prefix before it |
| `IntMachines.OverflowMissed` | iter_int.go:202-207 | the overflow guard is incomplete: 9999999999 is accepted as the 32-bit number 1410065407 |
| `IntMachines.UnsignedNarrow` | iter_int.go:60-97 | the 8-bit and 16-bit readers are exact: every number up to the limit is read as itself and every greater one is an error |
| `IntMachines.NegativeNarrow` | iter_int.go:41-87 | the same behind a minus sign |
| `IntMachines.AcceptedIsNumberOrBig` | iter_int.go:194-211 | whatever the digit loop accepts is the number written, or greater than the bound below which multiplying by ten is safe |
| `IntTheorems.UnsignedOutcome` | iter_int.go:60-97 | every input, in full: no integer where no digit stands; a single zero whatever follows but a dot; else the value of the whole run of digits modulo the width if it is within the limit, an overflow exactly if a prefix drops or the value is beyond the limit, and no integer in front of a dot |
| `IntTheorems.SignedOutcome` | iter_int.go:41-115 | the same for the signed readers; behind a minus sign the limit is one more and the value negated |
| `IntMachines.UnsignedRoundTrip` | iter_int.go:60-67 | the canonical decimal of every value of the type, in front of anything but a digit or a dot, is read back as that value |
| `IntMachines.SignedRoundTrip` | iter_int.go:41-115 | the same for signed values, the minimum of each width included |
| `StreamInt.InitDigits` | stream_int.go:5-15 | the packed table holds for each number below 1000 its three digits and its count of leading zeros |
| `StreamInt.WriteUint16` | stream_int.go:50-60 | appends the canonical decimal |
| `StreamInt.WriteUint32` | stream_int.go:75-99 | appends the canonical decimal, in blocks of three digits |
| `StreamInt.WriteUint64` | stream_int.go:114-168 | appends the canonical decimal of every 64-bit number |
| `StreamInt.WriteInt8` | stream_int.go:38-47 | appends the signed decimal, -128 included |
| `StreamInt.WriteInt64` | stream_int.go:171-180 | appends the signed decimal, the minimum value included |
| `Decimals.DecimalDenotes` | stream_int.go:17-30 | the canonical decimal consists of digits, denotes its number, and has no leading zero |
| `IterFloat.ReadNumberAsBytes` | iter_float.go:158-190 | collects exactly the run of number characters, over any chunks; at the end of a reader the cursor may stay behind |
| `IterFloat.ReadPositiveFloat` | iter_float.go:229-310 | the fast path forms the rational of the pure scanner and stops behind it, or the slow path starts from the unmoved cursor, or an error; the 32-bit body (iter_float.go:78-156) differs in one bound |
| `IterFloat.ReadFloat` | iter_float.go:220-227 | sign and magnitude |
| `NumberTheorems.FastEndsAtNumber` | iter_float.go:229-310 | on every valid number in front of a delimiter the fast path never errs, and stops exactly at the end of the number or leaves to the slow path |
| `FloatTheorems.FastIff` | iter_float.go:229-310 | the fast path in full, at both sizes: it is taken exactly for digits without a superfluous zero, then nothing or a dot and one to six digits, in front of a byte that ends a number, all in the buffer, with a mantissa that fits 64 bits and, for a float64 with a fraction, 53 bits; its mantissa is all the digits and its power of ten the number of digits behind the dot, so the quotient is the number written |
| `FloatTheorems.NumberClasses` | iter_float.go:17-32 | the table of digits, the delimiters of the skipper (iter_skip_strict.go:24-64) and the characters of a number (iter_float.go:158-190), byte by byte |
| `FloatTheorems.ValidateIff` | iter_float.go:331-351 | the validation in full: it looks at the first byte and at the byte behind the first dot |
| `NumberTheorems.ValidateAccepts` | iter_float.go:331-351 | the validation accepts the text of every valid unsigned number |
| `NumberTheorems.TrySkipsNumber` | iter_skip_strict.go:24-64 | on every valid number the quick skipper stops exactly at its end or is undecided; it decides whenever the delimiter is buffered and there is no exponent |
| `NumberSkips.SkippedNumberTaken` | iter_skip_strict.go:10-64 | `skipNumber` on every input that begins with a digit or a minus sign, wherever its buffer ends: it passes exactly the run of number characters, and does so if and only if the run, the byte behind it and the part of it in the buffer satisfy `TakenBySkipNumber` |
| `NumberSkips.Float32Taken` | iter_float.go:78-156 | `ReadFloat32` at a zero, in the same way |
| `NumberSkips.SkipNumberTaken` | iter_skip.go:83-90 | so the number that `Skip` passes, in full |
| `NumberForms.ValidNumberTakenIff` | iter_skip_strict.go:10-64 | a number of section 6 of RFC 8259 is skipped, in any split, if and only if strconv accepts it or is not asked: the cases where it is not are given |
| `NumberForms.TakenIsNumberIff` | iter_skip_strict.go:10-64 | what is skipped, in any split, is a number of RFC 8259 if and only if it does not begin with a zero and a digit, and no plus sign, dot, or zero and digit stands behind its minus sign |
| `StreamFloat.WriteFixedPoint` | stream_float.go:127-142 | from the scaled integer on, the lossy writers append its fixed-point text |
| `StreamFloat.FixedPointDenotes` | stream_float.go:127-142 | that text denotes exactly the scaled integer over 10^6, without leading zeros and without a trailing fraction zero |
| `StreamFloat.FixedPointReadsFast` | iter_float.go:229-310 | the float64 reader stays on its fast path on every such text in front of a table delimiter and forms the same rational from a mantissa below 2^53 |
| `StreamFloat.FixedPointIsNumber` | stream_float.go:127-142 | that text is a number of section 6 of RFC 8259 |
| `StreamFloat.DecimalIsNumber` | stream_int.go:171-180 | so is the text of every integer |
| `Containers.Skip` | iter_skip.go:74-99 | terminates on every input; on any buffering consumes exactly the value the machine finds, with no error and depth restored, and errs where it finds none; numbers, valid or not, end as `NumberSkips` has it for the place where their buffer ends |
| `Containers.Read` | iter.go:287-324 | terminates on every input; on any buffering returns the value the machine finds and stops behind it, with depth restored, and errs where it finds none; a number that ends the input is returned with io.EOF |
| `Containers.ReadArrayCB` | iter_array.go:29-67 | the elements in order, each through the callback; null as no elements; depth restored or an error |
| `Containers.ReadObjectRawCB` | iter_object.go:139-201 | the fields in order, a later one replacing an earlier one in the map `Read` fills; depth restored or an error |
| `Containers.TokenAfterKey` | iter_object.go:147-151 | reading the colon never changes the name handed to the callback, although it may refill the buffer the name is a view of |
| `IterSkipStrict.SkipNumber` | iter_skip_strict.go:10-22 | ends exactly as the pure machine, on every input and any buffering: cursor, success, end of input or error |
| `IterSkipStrict.SkipString` | iter_skip_strict.go:66-84 | consumes exactly a valid string, else errs |
| `DocTheorems.TakenThere` | iter_skip.go:74-99 | induction over the grammar: every document whose numbers are taken, nested within the limit, wherever it stands, is skipped and read exactly to its end, and reading gives its value |
| `DocTheorems.ValueThere` | iter_skip.go:74-99 | in particular every well-formed document of section 2 of RFC 8259 whose numbers strconv accepts or is not asked about |
| `DocTheorems.WellFormedIff` | iter.go:287-324 | the well-formed documents are the shaped ones without a null name and with numbers of RFC 8259 only |
| `DepthTheorems.TakenIffWithinLimit` | iter.go:329-336 | a document whose numbers are taken is taken if and only if its containers nest at most 10000 deep together with those open around it; else it is an error |
| `DepthTheorems.ExponentFreeIsSkippable` | iter_skip_strict.go:10-64 | in a flat buffer numbers without exponent of any size can be skipped, without asking strconv beyond numbers below ten |
| `AcceptTheorems.TakenIff` | iter.go:287-324 | exactly the documents of the shaped grammar whose numbers are taken, nested within the limit, are read or skipped, from any split of the input, each with its value and its end; no other input is |
| `AcceptTheorems.OneDoc` | iter.go:287-324 | the text decides the document: two shaped documents at one place are equal |
| `AcceptTheorems.IsJsonIff` | iter.go:287-324 | the text of a shaped document is a JSON text if and only if no name is null and every number is one of RFC 8259 |
| `Rfc8259.JsonIff` | iter.go:287-324 | the texts of the well-formed documents are exactly the values of RFC 8259: its grammar, rule by rule and with its bytes written out, is equivalent to the concrete syntax trees all theorems are about |
| `Rfc8259.NumberIff` | iter_float.go:229-310 | the greedy reading of a number accepts exactly the numbers of section 6 |
| `AcceptTheorems.TakenIsJsonIff` | iter_skip.go:74-99 | so for what is read or skipped; for what is skipped, from any split, if and only if no name is null and no number has one of the extra forms |
| `AcceptTheorems.MinusZeroIsSkipped` | iter_skip_strict.go:24-64 | `[-01]` is skipped in a flat buffer, and is no JSON text |
| `AcceptTheorems.NumberRunIsRead` | iter_float.go:158-190 | `[1-2]` is read as a list of one number, and is no JSON text |
| `AcceptTheorems.NullNameIsRead` | iter_str.go:85-99 | an object with the members `"":1` and `null:2` is read as the empty name with the value 2, and is no JSON text |
| `AcceptTheorems.SplitDecides` | iter_float.go:78-156 | `[01]`, if strconv takes `01`: skipped where a chunk ends behind the zero, refused from one buffer |
| `BufferTheorems.ReadIgnoresBuffering` | iter.go:287-324 | for every input, valid or not, what `Read` finds does not depend on the buffering or on strconv |
| `BufferTheorems.SkipIgnoresBuffering` | iter_skip.go:74-99 | a document is skipped from both of two readers or from neither, if each of its numbers is in its buffer with the byte behind it, or has the same part in its buffer, in both |
| `EndToEnd.SkipAndAppendBytes` | iter_skip.go:44-48 | appends exactly the input between the cursor positions, and for a value that can be skipped exactly that value |
| `EndToEnd.SkipDocument` | iter_skip.go:74-99 | on any buffering consumes exactly the document, no error, depth restored |
| `EndToEnd.SkipAnything` | iter_skip.go:74-99 | on any input and any buffering succeeds if and only if a document whose numbers are taken comes next, and stops behind it |
| `EndToEnd.ReadAnything` | iter.go:287-324 | the same for `Read` on any input and any buffering |
| `EndToEnd.SkipExponentFree` | iter_skip_strict.go:10-100 | in a flat buffer the same for every document without exponents, with numbers of any size |
| `EndToEnd.ReadDocument` | iter.go:287-324 | on any buffering returns the value of the document |
| `EndToEnd.ReadBothWays` | iter.go:234-284 | every input split into chunks in any way reads as from one buffer: success, value and offset agree |
| `SloppyMachines.ParityIsEscaped` | iter_skip_sloppy.go:129-145 | the parity of the backslashes counted backward says whether the forward escape reading has the byte escaped |
| `IterSkipSloppy.FindStringEnd` | iter_skip_sloppy.go:119-163 | the index past the first unescaped quote of the buffer, or how the automaton is to go on in the next one |
| `IterSkipSloppy.SkipString` | iter_skip_sloppy.go:98-114 | on any chunking, an odd run of backslashes at a chunk end included, stops just past the quote the forward automaton stops at |
| `IterSkipSloppy.SkipNumber` | iter_skip_sloppy.go:7-21 | stops at the next delimiter |
| `IterSkipSloppy.SkipContainer` | iter_skip_sloppy.go:23-58 | on any buffering stops where the bracket count of the pure machine returns to zero, depth restored, or errs; the loop for braces (iter_skip_sloppy.go:60-96) differs in the bracket |
| `SloppyMachines.CountingEndsAtDocument` | iter_skip_sloppy.go:23-96 | counting one kind of bracket and jumping over strings ends exactly at the end of a shaped array or object, if and only if no more than 10000 containers of that kind are open at once; those of the other kind are not counted |
| `SloppyMachines.SloppyIsStrict` | iter_skip_sloppy.go:7-114 | on every well-formed document the sloppy and the strict skipper stop at the same byte |
| `SloppyMachines.SkippersAgreeIff` | iter_skip_sloppy.go:7-114 | the sloppy and the strict skipper stop at one byte if and only if a document whose numbers are taken ends there; a number by itself, unless it begins with a zero, also needs a delimiter behind it |
| `SloppyMachines.StrictIsSloppy` | iter_skip_sloppy.go:7-114 | what the strict skipper takes the sloppy one takes to the same byte, except exactly a scanned number by itself without a delimiter behind it |
| `SloppyMachines.SloppyTakesMore` | iter_skip_sloppy.go:23-58 | it need not: `[}]` is skipped by counting brackets |
| `EndToEnd.SkipDocumentSloppily` | iter_skip_sloppy.go:7-114 | the sloppy `Skip` consumes exactly the document on any buffering, whatever strconv thinks of the numbers in it |
| `StreamWrite.WriteIndention` | stream.go:201-210 | a line break and the spaces of the line, less those of `delta`; nothing without indention |
| `StreamWrite.WriteObjectStart` | stream.go:147-151 | the whole new state of the stream |
| `StreamWrite.WriteObjectField` | stream.go:154-161 | the escaped name and the colon, with a space when indented |
| `StreamWrite.WriteObjectEnd` | stream.go:164-168 | the whole new state of the stream |
| `StreamWrite.WriteArrayEnd` | stream.go:195-199 | the whole new state of the stream |
| `Trees.WriteTree` | stream.go:147-199 | writing any tree with start, field, more and end calls appends the text of one document of the grammar and restores the indention |
| `TreeTheorems.EscapedIsBody` | stream_str.go:311-372 | between the quotes stands a valid string body that stands for the string |
| `TreeTheorems.WrittenIsWellFormed` | stream.go:147-210 | that document is well-formed at any indention step and nests as deeply as the tree |
| `LayoutTheorems.WrittenIsLaidOut` | stream.go:147-210 | without indention the text has no blanks outside strings; with it, it is that text laid out byte by byte: a line with `step` spaces for each open container behind an opening bracket and a comma, one with as many for each that stays open in front of a closing bracket, and one space behind a colon |
| `TreeTheorems.WrittenRepresents` | iter.go:287-324 | its value is the tree: same strings, number texts, order of elements, and each field under its name and no others |
| `TreeTheorems.DocumentRoundTrip` | stream.go:147-210 | every tree with unique names, written at any indention, is read back as the same tree, ending just behind it |
| `EndToEnd.WriteAndRead` | stream.go:147-210 | the writer composed with the reader over any chunks gives the same tree, and indention and depth are restored |
| `PullReaders.ReadObjectRaw` | iter_object.go:21-64 | on any buffering gives the next field name with its colon consumed, nil at the end, or an error |
| `PullReaders.ReadArray` | iter_array.go:4-26 | on any buffering tells whether one more element follows and stands in front of it |
| `AnyReader.KeyMatches` | any.go:205-211 | names are compared decoded, whether they hold escapes or not |
| `AnyReader.FindObjectField` | any.go:203-220 | stands in front of the value of the first field of that name, or says there is none |
| `AnyReader.FindArrayElement` | any.go:222-233 | stands in front of the element of that index, or says there is none |
| `AnyReader.LocatePath` | any.go:235-261 | for every input: the value the path search finds, read lazily, and the invalid value when the path is missing or the text malformed on the way |
| `AnyReader.ReadAny` | any.go:154-201 | captures exactly the text of the number, array or object it stands in front of; a malformed literal, string or container is an error, and so is a number that `skipNumber` refuses, on any buffering |
| `LookupMachines.LocateInDoc` | any.go:235-261 | on every document whose numbers are taken the search stands in front of exactly the value the path leads to, and misses exactly when there is none; a null for a name ends the search |
| `PullTheorems.NullIsEmpty` | iter_array.go:6-9 | every reader of arrays, objects and structs takes a null for an empty one and stops just behind it |
| `PullTheorems.OthersFail` | iter_array.go:29-67 | every other value in its place is an error |
| `PullTheorems.FieldFoundIff` | iter_object.go:21-64 | on every input `ReadObjectRaw` gives a name exactly if behind an opening brace or a comma a valid string with a colon behind it stands, and then its decoded text |
| `PullTheorems.FieldEndedIff` | iter_object.go:21-64 | it ends the object exactly at a closing brace, an empty object, a null, or a null with a colon behind a comma |
| `PullTheorems.ElementIs` | iter_array.go:4-26 | on every input: where `ReadArray` says that an element follows, and where it ends the array |
| `PathTheorems.Get` | config.go:342-346 | looking any path up in the bytes of a valid document returns that value, and the invalid value exactly when the path is absent |
| `LookupMachines.LookupIsReadThenGet` | any.go:203-261 | where names differ, that is what following the path through the value of `Read` gives |
| `LookupMachines.ReadKeepsLast` | iter.go:311-319 | `Read` keeps the last field of a repeated name |
| `LookupMachines.AgreeIff` | any.go:203-261 | lookup and `Read` agree on all paths if and only if, under every name of every object that lookup reaches, the first member is found and has the value of the last |
| `LookupMachines.RepeatedNameDiffers` | any.go:203-220 | on the bytes `{"":null,"":true}` the path search stands in front of the null, and `Read` keeps true |
| `FieldHash.CalcHash` | iter_object.go:119-129 | the hash of the folded name |
| `FieldHash.ReadFieldHash` | iter_object.go:67-117 | on any buffering hashes the name as the pure machine does, its colon consumed, or errs |
| `FieldHash.ReadHashIsCalcHash` | iter_object.go:67-129 | the hash made while reading a name is the hash of the decoded name, if what is decoded from the first escape on is ASCII and, unless names are case-sensitive, lowering the name changes ASCII letters only |
| `FieldHash.HashedAlikeIff` | iter_object.go:67-129 | the characters hashed on both sides: with case-sensitive names they are the same exactly under these conditions, without where the name is ASCII behind an escape |
| `LowerTheorems.HashedAlikeUnlessCased` | iter_object.go:67-129 | for names that are not case-sensitive and valid UTF-8 they are the same exactly under these conditions, if strings are lowered rune by rune |
| `FieldHash.EscapedNonAsciiDiffers` | iter_object.go:81-87 | the name `\u00e9` has another hash when it is read, with case-sensitive names |
| `FieldHash.UpperNonAsciiDiffers` | iter_object.go:105-109 | the name `É`, without an escape, has another hash when it is read, unless names are case-sensitive |
| `CaseTheorems.CaseIsFolded` | iter_object.go:81-109 | unless names are case-sensitive, two ASCII names that differ in the case of letters from A to Z at most get one hash as they are read, with or without escapes; stated with the two alphabets written out |
| `CaseTheorems.TableFindsAnyCase` | reflect_struct_decoder.go:575-630 | so a table finds a field by its name in any mix of cases |
| `CaseTheorems.GeneralFindsAnyCase` | reflect_struct_decoder.go:519-536 | the general decoder finds every field under its own name, even if it is the lower-case form of another; and under a name in other cases that field, if no other has the same lower-case form |
| `StructTheorems.CloseFields` | reflect_struct_decoder.go:37-43 | the map of names is closed under lower case, and only lower-case forms of bindings are added |
| `StructDecoder.CreateStructDecoder` | reflect_struct_decoder.go:47-491 | for one to ten fields a table is made exactly when no hash is zero and none repeats; it pairs each hash with its own field |
| `StructTheorems.EveryFieldIsFound` | reflect_struct_decoder.go:47-117 | the table finds every field by its hash, and nothing by zero |
| `StructTheorems.HashSelectsField` | reflect_struct_decoder.go:575-630 | hash dispatch selects the field that the general decoder selects if and only if the name does not collide with another field |
| `StructTheorems.CollidingNames` | iter_object.go:119-129 | two names that do: `dwc5a7z6whivl` and `bwqxz4w6j2pse` have one hash |
| `StructDecoder.DecodeStruct` | reflect_struct_decoder.go:499-554 | on any buffering the general and the table loops make the assignments of the pure machine, in order, and restore the depth |
| `StructDecoder.DecodeSkipping` | reflect_struct_decoder.go:560-567 | the decoder for no fields takes objects and null only and assigns nothing |
| `StructTheorems.KeysAgreeIff` | reflect_struct_decoder.go:519-554 | at every position of every input, valid or not, the general decoder and the tables (iter_object.go:67-117) make the same of the name there - the same field and the same place behind the colon, or both an error - if and only if the name or its colon is malformed for both, or the name is a string without a control character before its first escape whose hash, as it is read, selects the field that the map has under the text looked up |
| `StructTheorems.SimpleNamesDiffer` | reflect_struct_decoder.go:522-529 | the name `"\u0061":` where names must be simple, with the one field `a`: unknown to the general decoder, `a` to the table |
| `StructTheorems.NullNamesDiffer` | reflect_struct_decoder.go:519-536 | `null:` is the empty name to the general decoder and an error to the tables |
| `StructTheorems.ControlNamesDiffer` | iter_object.go:67-117 | a name with a control character is an error to the general decoder and a name to the tables |
| `StructTheorems.AgreedIffNoCollision` | reflect_struct_decoder.go:575-630 | a name that hashes alike, without escapes where names must be simple, is treated alike if and only if it does not collide with another field |
| `StructTheorems.EveryDecoderAgrees` | reflect_struct_decoder.go:575-630 | on every object whose known values can be read and whose other values can be skipped, every decoder that may be chosen makes the same assignments in the same order and stops just behind the object: the tables if each name satisfies the condition of `KeysAgreeIff`, the decoder for no fields if the first name is no null |
| `UnknownFields.DecodedIffKnown` | reflect_struct_decoder.go:537-548 | where unknown fields are errors, an object is decoded with the same assignments if every name is that of a field, and is an error otherwise |
| `UnknownFields.StructTooDeep` | reflect_struct_decoder.go:499-505 | a struct with a field inside 10000 open containers is an error |
| `UnknownFields.LastAssignmentStays` | reflect_struct_decoder.go:1053-1059 | the last assignment to a field decides its value; a field nothing is assigned to keeps its own (`OthersStay`) |

## Left out

- Callbacks of `ReadArrayCB` and `ReadObjectRawCB` are a choice of `Skip` or `Read`, both of which always ask for more; the branches for a callback that returns false are not modelled.
- IterStr.RawString: a value, so `Realize` returns the new string instead of replacing the fields of the old one; a view still points into the iterator's buffer, so overwriting is visible.
- IterInt.ReadUint: one member for both widths, and IterInt.ReadSigned and IterInt.ReadUnsigned one each for all widths, with the limit as a parameter, since the bodies differ in nothing else. The 8-fold unrolling is kept.
- IterStr.ParseU4: its early bounds check always passes where it is called and is left out.
- IterCore.Iterator.StopCapture: after a load that failed on a reader while capturing, what is returned is not specified; the saved bytes may be repeated.
- IterCore.Iterator.StartCaptureTo: a nil prefix, which the original cannot tell from no capture and panics on later, is not modelled, nor are the panics of nested captures, which are preconditions here.
- DepthTheorems.ExponentFreeIsSkippable: assumes that strconv accepts exponent-free numbers below ten.
- IterFloat.ReadBigFloat: only its effect on cursor and error is stated; `ReadBigInt` and `ReadNumber` are not modelled.
- StreamFloat.WriteFixedPoint: starts from the scaled integer; scaling, the sign, infinities and the fall back to strconv are not modelled.
- StreamFloat.FixedPointReadsFast: the final division of mantissa by power of ten in floating point is not modelled; the result is a rational.
- FieldHash.ReadHashIsCalcHash: `strings.ToLower` is a parameter that lowers the letters from A to Z, keeps the rest of ASCII and is idempotent.
- FieldHash.HashedAlikeIff: for names that are not case-sensitive and not ASCII behind an escape the condition is that of LowerTheorems.HashedAlikeUnlessCased; it assumes that the parameter maps runes one by one and takes none from U+0080 to U+00FF to ASCII, and for text that is not valid UTF-8 no condition is given.
- StructDecoder.DecodeStruct: a struct is a map from field slots to values and a field decoder is `Read`; reflection, pointers and string-mode fields are left out. The decoders for one to ten fields are one member with a table.
- StructDecoder.CreateStructDecoder: the variables of one case of the switch are one sequence; the order of Go's map iteration is a parameter.
- AnyReader.FindObjectField, AnyReader.FindArrayElement and AnyReader.ReadAny: on malformed text only the kind of error is specified.
- AnyReader.LocatePath: the wildcard step and paths through values that are not lazy are left out; a wildcard counts as a step of another type.
- EndToEnd.ReadBothWays: covers values read with numbers as texts; numbers converted to floats depend on the buffering only in which path converts them.
- A reader that returns bytes together with an error: the original looks at the error only on the next call, so it is a chunk followed by the error.
- Error texts and `fmt` formatting: an error is nil, io.EOF or any other.
- `io.Writer`, flushing, writer errors: a stream keeps everything in its buffer.
- `strconv`, `math/big` and IEEE rounding: predicates on texts that say whether they accept.
- reflect.go and the other reflection code, pools, caches, extensions, `Any` conversions, `Valid`: plumbing or easy members.
