# A verified model of the battle server's JSON engine and protocol state

The repository is a game backend. Its battle server carries a JSON engine (`battle/3rd/rapidjson`) and speaks to other
servers over a gateway. This project models the parts of it that carry the most state and branching, and proves what
they promise.

**The JSON engine.** `Utf8` holds the table-driven UTF-8 codec and its transcoding to UTF-16, against the grammar of
RFC 3629. `StringReading`, `InsituStream` and `StringWriting` hold string literals: decoding to a buffer, decoding over
the source itself, and writing; `TextSuffix` and `InsituParsing` carry decoding in place to whole documents. `Numbers`
and `Decimal` hold number literals in machine words against their mathematical value. `Grammar` states what the reader
computes for a text, a handler and a flag setting; `Reader` holds its two parsers as objects, and `Automaton` proves
the table-driven pushdown machine and recursive descent to agree. Which texts the reader accepts, and as what, is
written down without it: `StringGrammar` and `NumberGrammar` hold strings and numbers as RFC 8259 has them, `JsonGaps`
the white space and comments between tokens, `JsonLiterals` literals alone and in a text, `JsonText` and `JsonAccepted`
the two directions for trees, `JsonLanguage` the language of both parsers, and `JsonValues` the texts of values with the
layout of the writers; `HandlerCalls` says which handler calls are made and what an error tells. `Dom`, `Building`, `Parsing`, `Writer`, `Printing`
and `RoundTrip` hold the value tree, the document and both writers, and the law that printing and parsing a tree gives
it back; `Equality` holds the comparison of values. `Pointer`, `PointerFragment`, `PointerObject`, `PointerTree` and
`TreeEditing` hold JSON Pointers (RFC 6901): text, URI fragments, the object with its buffers, and edits of a tree.
`Uri` and `UriReference` hold the path normaliser and the URI class against RFC 3986. `SchemaPlaces`, `SchemaCompiler`,
`SchemaDocument` and `SchemaTexts` hold the `$ref` compiler with its termination, `SchemaKeywords` its subschemas,
references and ids by keyword, and `SchemaReferences` what a reference denotes. `Hashing` holds the hasher of schema
values and `HashTelling` what it tells apart, `Allocator` the memory pool, and `MembersMap` the optional index of object
members.

**The protocol state.** `Framing` holds the frame codecs of both languages and reassembly from chunks. `Rpc` and
`PendingRequests` hold the table of pending requests, `Relay` runs any number of servers over a relay that loses,
repeats and reorders frames, and `RelayAnswers` says what gets through and when a request ends. `Rooms` and `RoomManager` hold the battle rooms, their seats and the index of sessions.

Parts of the source that work by changing state are methods on objects or arrays, proved against functions whose laws
are stated as lemmas. Texts are sequences of bytes; reading past the end of a text gives the terminating NUL, and a NUL
inside a text ends it for the parsers as it does in the source. The following enter as parameters: the handler of a
parse (any function of the events so far), whether a literal overflows a double, whether memory, sending or spawning
succeeds, the resolution of references that leave a schema document, and the floating-point image of a number in the
hasher.

Where code and promise part, the code is kept and the difference is proved: `Automaton.CodesAgreeIff` (error codes of
the two parsers), `PointerObject.IndexWrongIff` (array indices beyond 32 bits), `PointerFragment.FragmentLikeTheRfc`
(encoded solidi), `PointerTree.GetAfterSet` and `PointerTree.OtherAfterSet` (when a set value and its neighbours can be
read back), `Uri.LikeTheRfcUnlessStraying` and `UriReference.ResolvesLikeTheRfc` (relative paths),
`SchemaTexts.SameTextOfTwo` (one pointer text compiled twice), `Allocator.BlockHoldsIffNoWrap` (requests near the end
of the size type), `Rooms.SeatedIff` and `Rooms.EverSeatedIff` (the room limit refuses seats too),
`Dom.PatternEquality` (equality of numbers by pattern), `Equality.DoubletsMayEqual` (objects that repeat a name,
documented as equal to none), `Framing.ExtractsEncoded` (encoders that check no limit).

`dafny verify dfyconfig.toml` checks the whole project with Dafny 4.11.

## Model

| member | source | states |
|---|---|---|
| Utf8.ValidateIsGrammar | battle/3rd/rapidjson/encodings.h:179-202 | one call of the table-driven validator succeeds exactly on a UTF8-char of RFC 3629 section 4, and then consumes just its bytes |
| Utf8.DecodeIsGrammar | battle/3rd/rapidjson/encodings.h:146-177 | the decoder accepts exactly the same UTF8-chars and moves past their bytes |
| Utf8.DecodedValue | battle/3rd/rapidjson/encodings.h:146-177 | the decoded code point is the number the payload bits of the two to four bytes denote |
| Utf8.DecodeThenEncode | battle/3rd/rapidjson/encodings.h:102-177 | what decodes is a scalar value, and encoding it gives back the very bytes read: no overlong form or surrogate is accepted |
| Utf8.EncodeThenDecode | battle/3rd/rapidjson/encodings.h:102-177 | every scalar value survives encoding and decoding, wherever its bytes stand |
| Utf8.ValidateString | battle/3rd/rapidjson/encodings.h:179-202 | the validation loop over a NUL-terminated string accepts exactly the well-formed ones and copies them unchanged |
| Utf8.WellFormedIsEncoding | battle/3rd/rapidjson/encodings.h:102-122 | well-formed text is the encoding of some sequence of scalar values |
| Utf8.EncodingIsWellFormed | battle/3rd/rapidjson/encodings.h:102-122 | the encoding of any sequence of scalar values is well-formed |
| Utf8.Encode16ThenDecode | battle/3rd/rapidjson/encodings.h:275-322 | UTF-16 encoding and decoding are inverse on all scalar values, surrogate pairs included (RFC 2781 sections 2.1 and 2.2) |
| Utf8.Encode16Units | battle/3rd/rapidjson/encodings.h:275-300 | a code point below 0x10000 is its own unit; one above is a high and a low surrogate whose ten bits each make it up |
| Utf8.WideningEncodes | battle/3rd/rapidjson/encodings.h:657-683 | transcoding the UTF-8 form of scalar values gives their UTF-16 form |
| Utf8.NarrowingEncodes | battle/3rd/rapidjson/encodings.h:657-683 | transcoding the UTF-16 form of scalar values gives their UTF-8 form |
| Utf8.TranscodeRoundTrip | battle/3rd/rapidjson/encodings.h:657-683 | transcoding to UTF-16 succeeds exactly on well-formed text, and back it is the identity |
| StringReading.Hex4Prefix | battle/3rd/rapidjson/reader.h:906-925 | the digit loop over four characters and the positional value of the four digits are the same number |
| StringReading.StepAt | battle/3rd/rapidjson/reader.h:991-1068 | a round of the decoding loop never appends more bytes than it consumed, which is what decoding in place rests on |
| InsituStream.InsituStringStream.PutOut | battle/3rd/rapidjson/stream.h:188-211 | a byte put behind the read cursor extends the decoded part and leaves the unread part alone |
| InsituStream.InsituStringStream.ParseHex4 | battle/3rd/rapidjson/reader.h:906-925 | the hexadecimal loop on the stream reads the four-digit number, or fails without passing the terminator |
| InsituStream.InsituStringStream.Validate | battle/3rd/rapidjson/encodings.h:179-202 | the validator that copies onto its own source stops taking at the terminator, and on success has copied exactly one UTF8-char |
| InsituStream.InsituStringStream.ParseUnicode | battle/3rd/rapidjson/reader.h:1027-1055 | a \u escape or surrogate pair decoded in place equals the separate-buffer step |
| InsituStream.InsituStringStream.Round | battle/3rd/rapidjson/reader.h:991-1068 | one round of the in-place decoder does what the separate-buffer decoder does at the same position |
| InsituStream.InsituStringStream.ParseStringToStream | battle/3rd/rapidjson/reader.h:959-1068 | decoding a string over its own source gives the bytes, or the error code and offset, of the separate-buffer decoder; nothing from the read cursor on is written |
| TextSuffix.SameMove | battle/3rd/rapidjson/reader.h:2011-2159 | a move of the table-driven parser depends on the text from its position on alone |
| InsituParsing.IterativeParseInsitu | battle/3rd/rapidjson/reader.h:2191-2224 | parsing a document over its own source gives the result of the ordinary parse, and however it ends every string handed to the handler still stands, terminated, at its place |
| StringWriting.WriteStringTo | battle/3rd/rapidjson/writer.h:383-455 | the writing loop appends exactly the literal, and fails exactly where some character does not transcode |
| StringWriting.SucceedsOnWellFormed | battle/3rd/rapidjson/writer.h:383-455 | plain output always succeeds; with validation or ASCII output writing succeeds exactly on well-formed UTF-8 |
| StringWriting.CodepointReads | battle/3rd/rapidjson/writer.h:407-431 | the ASCII escape of any scalar value, one unit or a surrogate pair, is read back as its UTF-8 bytes |
| StringWriting.EscapeReads | battle/3rd/rapidjson/writer.h:433-442 | every two- or six-character escape the writer puts out is read back as the byte it stands for |
| StringWriting.StringRoundTrip | battle/3rd/rapidjson/writer.h:383-455 | a written string is read back unchanged: any bytes, NUL included, with plain output; any well-formed text with every output and every reading flag |
| StringGrammar.StringsAreRead | battle/3rd/rapidjson/reader.h:959-1068 | every string of RFC 8259 section 7, its characters, one-letter escapes, 16-bit escapes and surrogate pairs written out, is decoded to what it denotes; with encoding validation the characters are UTF-8, and an escaped apostrophe counts where the flag allows it |
| StringGrammar.OnlyStringsAreRead | battle/3rd/rapidjson/reader.h:959-1068 | nothing else is decoded: whatever is read as a string is such a sequence of pieces, and the result is what they denote |
| StringGrammar.BytesAreWritten | battle/3rd/rapidjson/writer.h:383-455 | plain output writes a quotation mark and a backslash behind a backslash, five controls by their letter, the other controls in four upper-case digits and every other byte as it is; validating output writes the same of well-formed UTF-8 and fails on the rest |
| StringGrammar.CharactersAreWritten | battle/3rd/rapidjson/writer.h:400-437 | ASCII output writes every character above 0x7F as one escape, above 0xFFFF as a surrogate pair, and fails exactly on what is no UTF-8 |
| Numbers.ParseInt32 | battle/3rd/rapidjson/reader.h:1484-1518 | the 32-bit loop accumulates the value of the digits without wrap-around and hands over exactly when the next digit would leave the range |
| Numbers.ParseInt64 | battle/3rd/rapidjson/reader.h:1525-1558 | the 64-bit loop does the same for 64 bits, and gives up only on values that no 64-bit integer holds |
| Numbers.ParseInteger | battle/3rd/rapidjson/reader.h:1484-1580 | the integer part ends where its digits end, and the double path is taken exactly when no 64-bit type holds the value |
| Numbers.ParseFraction | battle/3rd/rapidjson/reader.h:1585-1625 | the fraction loops, the significand in a 64-bit word, count the decimal shift the specification prescribes and stop at the last digit |
| Numbers.ParseExponentDigits | battle/3rd/rapidjson/reader.h:1631-1680 | the exponent loops stop, skip or report overflow as specified for the sign, every intermediate value within 32 bits where the limit on the exponent is that of a text under 2^27 bytes |
| Numbers.ParseNumber | battle/3rd/rapidjson/reader.h:1468-1746 | number parsing, significands in 32-bit and 64-bit words and, for texts under 2^27 bytes, exponents within 32 bits, computes the event, end and errors given by the mathematical value of the literal |
| Numbers.ExponentArithmeticFits | battle/3rd/rapidjson/reader.h:1585-1680 | for texts under 2^27 bytes the signed 32-bit arithmetic on exponents and fraction counts never overflows |
| NumberGrammar.NumbersAreRead | battle/3rd/rapidjson/reader.h:1468-1746 | every number of RFC 8259 section 6 is read to its end, an integer in the smallest type by sign that holds it, anything else as a double; it is refused if and only if it is a double that overflows or its positive exponent exceeds 308 plus the fraction digits counted |
| NumberGrammar.OnlyNumbersAreRead | battle/3rd/rapidjson/reader.h:1468-1746 | a text read as a number to its end is a number of that grammar |
| NumberGrammar.ShiftIsCounted | battle/3rd/rapidjson/reader.h:1585-1625 | the digits of the fraction that are counted are those up to the eighteenth digit of the number, or, behind a zero, up to the seventeenth from the first that is no zero |
| NumberGrammar.ExponentIsExact | battle/3rd/rapidjson/reader.h:1631-1680 | the exponent read is the one written, but for a negative one beyond a tenth of what the fraction digits leave of 32 bits, which is read as some other beyond that |
| Decimal.PrintedReads | battle/3rd/rapidjson/reader.h:1484-1580 | every 64-bit integer in decimal, followed by a byte that ends a number, is read as that integer in the smallest event, 32 bits preferred |
| Reader.GenericReader.SkipWhitespaceAndComments | battle/3rd/rapidjson/reader.h:680-727 | skipping stops where `JsonGaps.SkipsBlanks`, `JsonGaps.SkipsGap` and `JsonGaps.SkipsFinalGap` say, or reports the offset of a broken comment |
| JsonGaps.SkipsBlanks | battle/3rd/rapidjson/reader.h:266-273 | without comments, skipping ends at the first byte that is no space, tab, line feed or carriage return |
| JsonGaps.SkipsGap | battle/3rd/rapidjson/reader.h:680-727 | white space with comments in it, where the flag admits them, is skipped to its end |
| JsonGaps.SkipsFinalGap | battle/3rd/rapidjson/reader.h:680-727 | at the end of the text also a line comment that no line feed ends |
| JsonGaps.SkippedIsGap | battle/3rd/rapidjson/reader.h:680-727 | nothing else is skipped |
| Reader.GenericReader.ParseString | battle/3rd/rapidjson/reader.h:959-989 | a string or key is decoded through the parser stack, which is left as found, and reported once |
| Reader.GenericReader.ParseObject | battle/3rd/rapidjson/reader.h:740-805 | the object loop raises the events, counts and errors of the grammar |
| Reader.GenericReader.ParseArray | battle/3rd/rapidjson/reader.h:808-853 | the array loop raises the events, counts and errors of the grammar |
| Reader.GenericReader.Parse | battle/3rd/rapidjson/reader.h:558-590 | the recursive-descent parser, for every text, position of the stream, handler and flag setting, computes the verdict, events, code and offset of the grammar |
| Reader.GenericReader.Transit | battle/3rd/rapidjson/reader.h:2011-2159 | a transition on the byte stack of states and counts is the transition of the pushdown machine |
| Reader.GenericReader.IterativeParse | battle/3rd/rapidjson/reader.h:2191-2224 | the table-driven parser, from any position of the stream, computes the run of the pushdown machine and leaves its stack empty |
| Automaton.StepKeepsStack | battle/3rd/rapidjson/reader.h:2011-2159 | every move keeps the stack discipline: return states and counts in pairs, Start at the bottom, nothing left at Finish, no underflow |
| Automaton.StepSimulates | battle/3rd/rapidjson/reader.h:1844-2159 | one move of the machine preserves what the recursive descent would still compute from that configuration |
| Automaton.StuckFails | battle/3rd/rapidjson/reader.h:2163-2181 | where the machine runs out of text, recursive descent fails with the same code and offset |
| Automaton.RunSimulates | battle/3rd/rapidjson/reader.h:2191-2224 | a whole run of the machine computes what recursive descent computes from the same configuration |
| Automaton.ParsersAgree | battle/3rd/rapidjson/reader.h:558-590 | from any position both parsers give the same verdict, the same events with the same counts and the same code, except where the first token is a stray bracket, comma or colon, which both reject without an event; their offsets differ, by one byte, if and only if the handler refused a bracket that does not close behind a trailing comma |
| Automaton.ParsersEqual | battle/3rd/rapidjson/reader.h:558-590 | with a handler that never refuses, the results of both parsers are equal, offsets included, if and only if the first token is no stray bracket, comma or colon |
| Automaton.CodesAgreeIff | battle/3rd/rapidjson/reader.h:2163-2181 | the error codes of the two parsers are equal if and only if the first token is no closing bracket, comma or colon (`StrayCodesDiffer` shows a lone bracket) |
| JsonLanguage.ReadsSpelled | battle/3rd/rapidjson/reader.h:558-590 | a text that spells a tree of literals, brackets, commas and colons, with any gaps before, between and behind its tokens, is accepted by both parsers to its end, in the events of the tree with its counts in 32 bits |
| JsonLanguage.ReadsOne | battle/3rd/rapidjson/reader.h:558-590 | with the flag that stops when the value is done both parsers stop right behind it, whatever follows, unless it goes on a number |
| JsonLanguage.AcceptedIsSpelled | battle/3rd/rapidjson/reader.h:558-590 | whatever is accepted, under any handler, spells a tree, and the events are those of that tree |
| JsonLanguage.AcceptsExactly | battle/3rd/rapidjson/reader.h:558-590 | each parser accepts a text if and only if it spells a tree: RFC 8259 section 2, with trailing commas and comments where the flags admit them |
| HandlerCalls.ParsersAsk | battle/3rd/rapidjson/reader.h:558-590 | the parsers go on while the handler accepts and make no call after a refusal, a termination is reported if and only if the last call was refused, and every other error code tells what stands at its offset; the iterative parser where no stray bracket, comma or colon begins the text |
| Dom.ConstructorsAreCanonical | battle/3rd/rapidjson/document.h:792-835 | an integer stored through any of the four constructors that holds it gets one representation, whose flags say exactly which types it fits |
| Dom.PatternEquality | battle/3rd/rapidjson/document.h:1059 | comparing the 64-bit patterns of two integers is integer equality except for pairs that differ by 2^64 (`PatternsCollide` shows -1) |
| Dom.NumberEventIsExact | battle/3rd/rapidjson/document.h:1978-1985 | visiting a number raises an event of a type that holds it, carrying the very integer |
| Dom.GenericDocument.EndObject | battle/3rd/rapidjson/document.h:2849-2855 | closing an object folds the name and value cells above its placeholder into one value, in order |
| Dom.GenericDocument.EndArray | battle/3rd/rapidjson/document.h:2857-2861 | closing an array folds the cells above its placeholder into one value, in order |
| Dom.GenericDocument.Receive | battle/3rd/rapidjson/document.h:2819-2861 | the handler methods, called one after another, keep the stack the events of the run describe |
| Building.ValueBuilds | battle/3rd/rapidjson/document.h:2821-2861 | the events of any value the reader accepts push exactly one value onto the document stack and touch nothing below it |
| Building.AcceptedBuildsOneValue | battle/3rd/rapidjson/document.h:2643-2657 | for every accepted text under 4 GiB, comments and trailing commas included, the document stack ends with exactly one value and never underflows |
| Parsing.EveryTextHandled | battle/3rd/rapidjson/document.h:2819-2861 | on every text under 4 GiB, accepted or not, and with either parser, no handler method pops more than was pushed, and acceptance leaves exactly one value |
| Parsing.ParseStream | battle/3rd/rapidjson/document.h:2643-2653 | parsing from any position of a stream with either parser: success moves the one value built into the document and stops the stream where the parse ended, failure keeps the document and gives code and offset, and the stack ends empty after both |
| Writer.GenericWriter.Prefix | battle/3rd/rapidjson/writer.h:479-497 | both prefix routines put out the separator and white space of the next value (`JsonValues.PrintedIsLaidOut` says which) and count it |
| Writer.GenericWriter.Close | battle/3rd/rapidjson/prettywriter.h:137-185 | closing a container puts out line break, indentation and bracket as its level requires and pops that level |
| Writer.GenericWriter.Handle | battle/3rd/rapidjson/writer.h:183-254 | each handler call moves the level stack and the output as the writer machine does, failing exactly where a string cannot be written |
| Printing.WritesIff | battle/3rd/rapidjson/writer.h:183-254 | a handler call is in order if and only if it keeps to one root, names of members before their values, and closing brackets that match, and its string can be written |
| Printing.WritesValue | battle/3rd/rapidjson/prettywriter.h:123-255 | walking a value in any writer state that awaits one prints its text once, with separator, and leaves the open levels as they were |
| Printing.WriterPrints | battle/3rd/rapidjson/writer.h:479-504 | a fresh writer, plain or pretty, that walks a tree ends complete with exactly the printed tree as output |
| Printing.AcceptWriter | battle/3rd/rapidjson/document.h:1948-1985 | walking a tree call by call into a fresh writer object leaves it complete with the text of the tree |
| JsonValues.PrintedIsLaidOut | battle/3rd/rapidjson/prettywriter.h:208-255 | what a writer prints is the tokens of the value with, for pretty output, a line break and the indentation of the depth in front of every element, name and closing bracket that has something inside, a space behind a colon, and arrays on one line where asked for; for plain output with nothing between |
| JsonValues.AnyGapsWillDo | battle/3rd/rapidjson/reader.h:680-853 | the tokens of a value, with any gaps before, between and behind them, raise the same events in both parsers and build that value |
| JsonValues.AnyBlanksWillDo | battle/3rd/rapidjson/reader.h:266-273 | in particular with any runs of spaces, tabs, line feeds and carriage returns |
| RoundTrip.AcceptBuilds | battle/3rd/rapidjson/document.h:1948-1985 | walking a tree into a document builds a copy, member order and duplicates kept |
| RoundTrip.ReadBuildsSame | battle/3rd/rapidjson/document.h:2821-2861 | reporting integers in the smallest type instead of the type they were written from builds the same tree |
| RoundTrip.ReadsPrinted | battle/3rd/rapidjson/reader.h:739-853 | the reader, at the text of a printed value, raises the events of that value and stops right behind it |
| RoundTrip.TreeRoundTrip | battle/3rd/rapidjson/document.h:1948-1985 | printing a tree with either writer and any indentation of blanks, and parsing it with either parser under any flags, rebuilds the very tree and nothing else |
| RoundTrip.StreamRoundTrip | battle/3rd/rapidjson/reader.h:558-590 | values printed one after another into one stream come back one from each parse that stops when its value is done, with either parser |
| Pointer.AcceptsTheGrammar | battle/3rd/rapidjson/pointer.h:930-1060 | a text that is no fragment is accepted exactly when it is a JSON Pointer by section 3 of RFC 6901 |
| Pointer.TokensAreSegments | battle/3rd/rapidjson/pointer.h:964-1060 | the tokens of an accepted text are its segments between solidi, each `~0` in them read as a tilde and each `~1` as a solidus (RFC 6901 section 4) |
| PointerFragment.AcceptsFragments | battle/3rd/rapidjson/pointer.h:930-1060 | a URI fragment is accepted exactly when it is empty or begins with a solidus, its bytes outside triplets are solidi or unreserved by section 2.3 of RFC 3986, its decoded text is UTF-8, and an unencoded 0 or 1 follows each tilde, encoded or not |
| PointerFragment.FragmentLikeTheRfc | battle/3rd/rapidjson/pointer.h:964-1060 | an accepted fragment gives the tokens of its decoded text, as section 6 of RFC 6901 has it, if and only if no solidus in it is percent-encoded (`EncodedSolidusStays` shows one) |
| Pointer.StringifyParse | battle/3rd/rapidjson/pointer.h:1068-1100 | every accepted pointer text, fragments aside, is printed back unchanged |
| Pointer.ParseStringify | battle/3rd/rapidjson/pointer.h:1068-1100 | whatever is printed, as string or as URI fragment, parses back to the same reference tokens (RFC 6901 sections 3 and 6) |
| Pointer.StringifySucceeds | battle/3rd/rapidjson/pointer.h:1068-1100 | printing always succeeds; as URI fragment it does exactly when every name is well-formed UTF-8 |
| Pointer.PercentUnit | battle/3rd/rapidjson/pointer.h:970-990 | one UTF8-char behind percent signs is read back as its bytes, whatever triplets follow |
| PointerObject.IndexIsExact | battle/3rd/rapidjson/pointer.h:1017-1045 | for numbers below 2^32 a token has an array index exactly when it is a decimal form without leading zero, and then that number |
| PointerObject.IndexNamesOne | battle/3rd/rapidjson/pointer.h:1017-1045 | different names have the same index if and only if both are canonical numbers whose 32-bit residues never drop from digit to digit, and agree modulo 2^32; one of them is then past 32 bits |
| PointerObject.IndexIsResidue | battle/3rd/rapidjson/pointer.h:1017-1045 | the index of any name is its number modulo 2^32 if the name is canonical and its residues never drop, and no index otherwise |
| PointerObject.IndexWrongIff | battle/3rd/rapidjson/pointer.h:1036-1037 | the index is wrong if and only if the number needs more than 32 bits and yet no residue drops on the way to a valid index, as for 6000000000 (`OverflowMissed`) |
| PointerObject.PercentDecodeStream.Take | battle/3rd/rapidjson/pointer.h:1119-1138 | a triplet is decoded to its byte; anything else marks the stream invalid and gives zero |
| PointerObject.ValidateTriplets | battle/3rd/rapidjson/pointer.h:972-989 | the transcoder from the percent stream into the name buffer succeeds exactly on a UTF8-char, writes its bytes at the cursor and nothing before it |
| PointerObject.ParseName | battle/3rd/rapidjson/pointer.h:964-1024 | the name loop stores the decoded token behind the names before it, its write cursor staying behind the read cursor |
| PointerObject.ConvertIndex | battle/3rd/rapidjson/pointer.h:1023-1045 | the index loop reads the digits out of the buffer and wraps as 32-bit arithmetic does |
| PointerObject.GenericPointer.Parse | battle/3rd/rapidjson/pointer.h:930-1060 | parsing fills an array with one token for each solidus and a name buffer of the length of the source, without a store outside either, or ends empty with error code and offset |
| PointerObject.GenericPointer.Stringify | battle/3rd/rapidjson/pointer.h:1068-1100 | printing from the buffers gives the text of the stored names, or fails where it must |
| PointerObject.GenericPointer.Equals | battle/3rd/rapidjson/pointer.h:364-378 | two pointers are equal exactly when both are valid and their tokens agree in index and name |
| PointerTree.CreateExistsIffGet | battle/3rd/rapidjson/pointer.h:458-505 | creating reports an existing value if and only if the path resolves, and then changes nothing |
| PointerTree.GetAfterSet | battle/3rd/rapidjson/pointer.h:732-739 | after setting, the path gives the value back if and only if no dash token met an array on the way |
| PointerTree.OtherAfterSet | battle/3rd/rapidjson/pointer.h:458-505 | a value on a path that parts from the set one stays, if and only if the step that parts them does not turn an array into an object |
| PointerTree.DifferentNamesPart | battle/3rd/rapidjson/pointer.h:1017-1045 | names part two paths, in arrays and objects alike, if and only if they differ and share no index; below 2^32 they always do when they differ |
| PointerTree.EditMakes | battle/3rd/rapidjson/pointer.h:458-505 | after setting or creating, each container on the way, before any dash that met an array, is an array if and only if it was one and its token is a dash or an index, or it was no container and its token is an index, and otherwise an object; on what is no container index k makes k + 1 elements, null before the last, and a name exactly that one member; the element a dash adds is made as in a null |
| PointerTree.EditMakesArrays | battle/3rd/rapidjson/pointer.h:466-477 | the kinds alone, as an if and only if |
| PointerTree.GetAfterCreate | battle/3rd/rapidjson/pointer.h:458-505 | after creating, the path leads to the value that was there, or to a null, unless a dash met an array |
| PointerTree.EraseRemoves | battle/3rd/rapidjson/pointer.h:833-870 | erasing succeeds if and only if the path is not empty and resolves; it takes just that child out of its parent, and a failure changes nothing |
| PointerTree.OtherAfterErase | battle/3rd/rapidjson/pointer.h:833-870 | every path that parts from an erased one still leads to its value, an index behind it in the same array being one lower |
| TreeEditing.Subtree.Resolve | battle/3rd/rapidjson/pointer.h:601-629 | the lookup loop finds what the path denotes, or the first token that does not resolve |
| TreeEditing.Subtree.Create | battle/3rd/rapidjson/pointer.h:458-505 | the creating loop, editing through a cursor into the tree, leaves the tree the path law describes and a cursor through which assignment is `Set` |
| TreeEditing.Subtree.Set | battle/3rd/rapidjson/pointer.h:732-739 | creating and assigning through the result sets the value at the path |
| TreeEditing.Subtree.Erase | battle/3rd/rapidjson/pointer.h:833-870 | the erasing loop removes the child its last token selects |
| TreeEditing.GetValueByPointer | battle/3rd/rapidjson/pointer.h:1219-1221 | the text is parsed into the buffers and its tokens, read back from them, are resolved |
| TreeEditing.CreateValueByPointer | battle/3rd/rapidjson/pointer.h:1189-1192 | creating by text reports an existing value if and only if the text resolves in the tree, which then stays as it was; otherwise every container on the way is of the kind its token asks for |
| TreeEditing.SetValueByPointer | battle/3rd/rapidjson/pointer.h:1354-1357 | setting by text: the text gives the value back unless a dash met an array, every path that parts from it keeps its value unless the step that parts them turns an array into an object, and every container on the way is of the kind its token asks for |
| TreeEditing.EraseValueByPointer | battle/3rd/rapidjson/pointer.h:1469-1472 | erasing by text succeeds if and only if the text is not empty and resolves, a failure changes nothing, and every path that parts from it keeps its value, moved down or not |
| Uri.RemoveDotSegments | battle/3rd/rapidjson/uri.h:411-458 | the in-place loop computes the normal form; its write position never passes its read position and nothing behind the terminator changes |
| Uri.NormalizesLikeTheRfc | battle/3rd/rapidjson/uri.h:411-458 | on absolute paths the result is that of the two-buffer routine of RFC 3986 section 5.2.4 |
| Uri.NormalizedIsDotFree | battle/3rd/rapidjson/uri.h:411-458 | no path, absolute or relative, keeps a dot or double-dot segment |
| Uri.NormalizedTwice | battle/3rd/rapidjson/uri.h:411-458 | a path without dot segments is left alone, so normalising twice is normalising once |
| Uri.LikeTheRfcUnlessStraying | battle/3rd/rapidjson/uri.h:411-458 | on any path the result is that of the routine of RFC 3986 section 5.2.4 if and only if the path does not stray: no `..` takes back the first segment of a rootless path, unless after that one meets a lone slash (`RelativePathsDiffer` shows `a/..`) |
| UriReference.SplitIsUnique | battle/3rd/rapidjson/uri.h:277-371 | the cuts of parsing are the only ones that follow the grammar of appendix B of RFC 3986, every byte kept |
| UriReference.ParseUri | battle/3rd/rapidjson/uri.h:277-371 | the scanning loops make those cuts, each part read up to its terminator and an absolute path normalised in its buffer |
| UriReference.ResolveUri | battle/3rd/rapidjson/uri.h:156-220 | the branches and the loop for the last slash compute the resolved URI |
| UriReference.ResolvesLikeTheRfc | battle/3rd/rapidjson/uri.h:156-220 | resolving is the transformation of RFC 3986 section 5.2.2 if and only if the path it normalises, if any, does not stray |
| UriReference.HierarchicalResolves | battle/3rd/rapidjson/uri.h:156-220 | a reference without scheme resolves as the RFC has it against every base whose path is absolute or follows an authority |
| UriReference.FragmentStays | battle/3rd/rapidjson/uri.h:156-220 | a reference that is only a fragment keeps all of its base but the fragment |
| SchemaPlaces.SubschemasBelow | battle/3rd/rapidjson/schema.h:618-780 | every subschema a schema creates lies below it in the document, under the pointer the compiler gives it |
| SchemaKeywords.SubschemasExactly | battle/3rd/rapidjson/schema.h:629-780 | the subschemas of a schema are the elements of `allOf`, `anyOf`, `oneOf` and `items`, the value of `not`, the members of `properties` and `patternProperties`, and, where they are objects, those of `dependencies` and the values of `items`, `additionalItems` and `additionalProperties`, each under its pointer, and no others |
| SchemaKeywords.RefersExactly | battle/3rd/rapidjson/schema.h:2205-2222 | a schema refers to the text its `$ref` holds, and to nothing if that is missing, empty or no text |
| SchemaKeywords.FindsFirst | battle/3rd/rapidjson/schema.h:2324-2360 | the search for an id gives the first object in document order whose URI, its id resolved against that of what encloses it, is the one wanted, and fails if and only if there is none |
| SchemaKeywords.NameDenotes | battle/3rd/rapidjson/schema.h:2222-2312 | a reference is sought under the first object that carries its URI without fragment; a plain name there denotes the first object that carries the whole URI, and a URI that no object carries is asked of the provider of other documents |
| SchemaPlaces.UniverseIsClosed | battle/3rd/rapidjson/schema.h:2205-2350 | for every document, with references cyclic or not and with whatever ids and scopes, there is a finite set of places that no subschema and no local reference leads out of |
| SchemaPlaces.OwnUriIsLocal | battle/3rd/rapidjson/schema.h:2222-2265 | a reference whose URI is the document's own, however it is spelled, is resolved from the root, where that is an object without an id; `SchemaReferences.ReferenceDenotes` says to what |
| SchemaReferences.ReferenceDenotes | battle/3rd/rapidjson/schema.h:2266-2273 | a pointer fragment denotes, from the object that carries the URI, the value its names lead to, under the pointer of that object with exactly those names behind it; it is broken exactly when the fragment does not parse or the names lead nowhere |
| SchemaReferences.PathIsDenoted | battle/3rd/rapidjson/schema.h:2222-2273 | in a document whose root has no id, a reference printed from the names of a path denotes the pointer of those names and the value they lead to |
| SchemaReferences.CompiledReference | battle/3rd/rapidjson/schema.h:2205-2318 | in the finished document such a referring schema has the schema that the lookup gives for the pointer of those names, on a cycle the typeless one for both, and the typeless one where the names lead to no object |
| SchemaCompiler.Waits | battle/3rd/rapidjson/schema.h:2205-2216 | pushing a reference keeps every pointer unique over both stacks and the waiting references one chain |
| SchemaCompiler.Registers | battle/3rd/rapidjson/schema.h:575-590 | registering a new schema keeps the map: no pointer and no schema is owned twice |
| SchemaCompiler.Drains | battle/3rd/rapidjson/schema.h:2363-2370 | draining the waiting references into the map keeps it: each gets the schema of what it refers to |
| SchemaCompiler.SchemaHasOwner | battle/3rd/rapidjson/schema.h:2205-2318 | a reference that got a schema of this document shares it with exactly one owning entry, registered earlier |
| SchemaCompiler.TargetShares | battle/3rd/rapidjson/schema.h:2205-2318 | a reference and its target carry one schema |
| SchemaCompiler.CycleIsTypeless | battle/3rd/rapidjson/schema.h:2373-2378 | every pointer on a cycle of references ends with the typeless schema |
| SchemaDocument.GenericSchemaDocument.GetSchema | battle/3rd/rapidjson/schema.h:2380-2385 | the scan finds the schema registered for a pointer |
| SchemaDocument.GenericSchemaDocument.AddSchemaRefs | battle/3rd/rapidjson/schema.h:2363-2370 | the loop empties the stack of waiting references into the map, all with one schema |
| SchemaDocument.GenericSchemaDocument.HandleRefSchema | battle/3rd/rapidjson/schema.h:2205-2318 | a reference is resolved, found cyclic or given up; in every case it ends registered, with all that waited, under the schema returned, and no reference waits |
| SchemaDocument.GenericSchemaDocument.NewSchema | battle/3rd/rapidjson/schema.h:581-590 | a schema registers itself and its references before its subschemas are made, and ends with none waiting |
| SchemaDocument.GenericSchemaDocument.CreateSubschemas | battle/3rd/rapidjson/schema.h:629-780 | every subschema of a schema that is an object is registered when its constructor is done |
| SchemaDocument.GenericSchemaDocument.CreateSchema | battle/3rd/rapidjson/schema.h:2176-2201 | creating terminates, by pointers not yet registered and then pointers not yet waiting; the object at the pointer and all references that led to it carry the schema returned |
| SchemaDocument.GenericSchemaDocument.CreateSchemaRecursive | battle/3rd/rapidjson/schema.h:2163-2174 | the walk over the document registers every object in it, and all subschemas of every schema made |
| SchemaDocument.Compile | battle/3rd/rapidjson/schema.h:1843-1892 | compiling any document ends, every object and every subschema of a schema made registered, no pointer with two entries, no reference left waiting; in a document without repeated names or a root id, a schema that refers to the names of a path has the schema of that place |
| SchemaTexts.SameTextOfTwo | battle/3rd/rapidjson/schema.h:2371-2385 | two pointers the compiler makes print the same text if and only if their names agree and some number among them is a name in one and an index in the other (`ZeroMetBothWays` shows the member 0) |
| SchemaTexts.CompiledTwice | battle/3rd/rapidjson/schema.h:581-590 | two registered pointers without reference own a schema each, so that a place reached under both is compiled twice |
| Hashing.ValueHashes | battle/3rd/rapidjson/schema.h:330-421 | walking any value into the hasher pushes exactly one entry and leaves those below |
| Hashing.SameHash | battle/3rd/rapidjson/schema.h:362-383 | values equal up to member order at every depth, integers by number, have one hash |
| Hashing.PermutedIsSame | battle/3rd/rapidjson/schema.h:362-372 | any reordering of the members counts as the same object |
| Hashing.SameValuesHashAlike | battle/3rd/rapidjson/schema.h:330-421 | two such values leave one and the same single entry on the stack of the hasher |
| HashTelling.StringsTell | battle/3rd/rapidjson/schema.h:404-421 | strings that differ in one byte differ in their hash |
| HashTelling.NumbersTell | battle/3rd/rapidjson/schema.h:402-421 | numbers that differ in one byte of the pattern or of the double differ in their hash |
| HashTelling.IntegersTell | battle/3rd/rapidjson/schema.h:336-349 | so two integers of a tree with one floating-point image differ in their hash when their patterns differ in one byte |
| HashTelling.WordsTell | battle/3rd/rapidjson/schema.h:333-335 | null, true and false differ in their hash |
| HashTelling.ArraysTell | battle/3rd/rapidjson/schema.h:373-383 | an array with another element in one place has the same hash if and only if the two elements have |
| HashTelling.ObjectsTell | battle/3rd/rapidjson/schema.h:362-372 | an object with another value under one of its names, or another name for one value, has the same hash if and only if the two values, or names, have |
| Hashing.Hasher.EndObject | battle/3rd/rapidjson/schema.h:362-372 | the loop over the popped pairs computes their xor fold |
| Hashing.Hasher.HashValue | battle/3rd/rapidjson/schema.h:383-388 | hashing a value leaves one entry, the hash of the value |
| Equality.EqualIffSame | battle/3rd/rapidjson/document.h:1025-1067 | on a value whose objects repeat no name, and without doubles on either side, `operator==` is sameness up to the order of members at every depth, integers by pattern |
| Equality.EqualIsEquivalence | battle/3rd/rapidjson/document.h:1025-1067 | among such values it is reflexive, symmetric and transitive, and equal ones, their patterns read as unsigned numbers, hash alike |
| Equality.DoubletsMayEqual | battle/3rd/rapidjson/document.h:1020-1043 | an object that repeats a name equals some object if and only if its members of one name are equal, against the note that it never does (`DoubletsAreLopsided` shows one, unequal in the other direction) |
| Allocator.BlockHoldsIffNoWrap | battle/3rd/rapidjson/allocators.h:321-334 | a block is as large as asked for and inside its chunk if and only if no sum of the request leaves the 64-bit size type (`LargestRequestIsEmpty` shows the largest request) |
| Allocator.BumpIsFine | battle/3rd/rapidjson/allocators.h:321-334 | a block bumped off the head is aligned, inside the used part and apart from all blocks handed out |
| Allocator.GrowthIsFine | battle/3rd/rapidjson/allocators.h:352-359 | growing the last block in place keeps all blocks apart |
| Allocator.ChunkIsFine | battle/3rd/rapidjson/allocators.h:390-402 | a new head chunk keeps all blocks where they are |
| Allocator.SizeWithinCapacity | battle/3rd/rapidjson/allocators.h:293-310 | `Size` gives at most what `Capacity` gives while the chunks together fit the 64-bit size type, and beyond that if and only if the wrapped sums subtract without a borrow |
| Allocator.SumsAddUp | battle/3rd/rapidjson/allocators.h:293-310 | what is used grows by the aligned size of each block, what there is by the capacity of each chunk, and by nothing else |
| Allocator.MemoryPoolAllocator.Malloc | battle/3rd/rapidjson/allocators.h:321-334 | allocation returns null for no bytes or no memory, the next bytes of the head chunk where they fit, and else the first bytes of a new chunk of at least the configured capacity; every block stays aligned, inside its chunk and apart |
| Allocator.MemoryPoolAllocator.Realloc | battle/3rd/rapidjson/allocators.h:337-369 | a block that is large enough, or ends the used part with room behind it, stays where it is; else a new one holds the old bytes in front, and no byte of any other block changes |
| Allocator.MemoryPoolAllocator.Clear | battle/3rd/rapidjson/allocators.h:277-287 | clearing gives back every chunk but the first one made |
| MembersMap.OneEntryEach | battle/3rd/rapidjson/document.h:2191-2210 | the map has exactly as many entries as the object has members, on which copying by its size relies |
| MembersMap.LookupAgrees | battle/3rd/rapidjson/document.h:2228-2288 | the map finds a member if and only if the scan does, and the same one when names are distinct |
| MembersMap.AddKeepsStep | battle/3rd/rapidjson/document.h:2304-2318 | adding keeps slot, iterator and entry in step |
| MembersMap.RemoveKeepsStep | battle/3rd/rapidjson/document.h:2320-2342 | moving the last member into a removed one's slot keeps them in step |
| MembersMap.EraseKeepsStep | battle/3rd/rapidjson/document.h:2344-2376 | erasing a range keeps them in step |
| MembersMap.RemovedTakesOne | battle/3rd/rapidjson/document.h:2320-2342 | removal takes out just the one member, the last one takes its place and the others stay |
| MembersMap.ObjectData.DoReserveMembers | battle/3rd/rapidjson/document.h:2191-2226 | reserving moves members and iterators to larger arrays unchanged |
| MembersMap.ObjectData.DoAddMember | battle/3rd/rapidjson/document.h:2304-2318 | adding appends the member and its entry; a full array grows to 16 slots or by half, rounded up |
| MembersMap.ObjectData.DoFindMember | battle/3rd/rapidjson/document.h:2228-2238 | the lookup finds a member with the name exactly when there is one |
| MembersMap.ObjectData.DoRemoveMember | battle/3rd/rapidjson/document.h:2320-2342 | removal replaces the member by the last one, its entry renumbered |
| MembersMap.ObjectData.DoEraseMembers | battle/3rd/rapidjson/document.h:2344-2376 | erasing closes the gap in members, iterators and entries |
| Framing.SerialRoundTrip | battle/src/framework/BackendCodec.cpp:22-44 | every signed serial survives the cast to an unsigned word and back |
| Framing.EncodeSpells | game/backend-framework/src/codec.rs:49-60 | a frame is written as its length, command, message id, serial in two's complement and session id, most significant byte first, and the payload |
| Framing.ExtractsSpelled | game/backend-framework/src/codec.rs:17-47 | a buffer gives a frame exactly when its first bytes spell one of at most a megabyte, is refused exactly when the length is below a header or above that, and else waits for more |
| Framing.ExtractsEncoded | game/backend-framework/src/codec.rs:17-60 | extracting right after encoding gives the frame back and leaves what follows if and only if the frame keeps the packet limit, which neither encoder checks |
| Framing.DrainInParts | game/backend-framework/src/codec.rs:17-47 | extracting from a stream in two parts takes out the same frames as from the whole |
| Framing.ChunkingDoesNotMatter | game/backend-framework/src/codec.rs:17-47 | for any byte stream, good or bad, the frames and the verdict do not depend on how it was cut into chunks |
| Framing.FramesSurviveChunking | game/backend-framework/src/codec.rs:17-47 | however the encodings of frames and the start of one more are cut, exactly those frames come out in order and the start stays in the buffer |
| Framing.EncodeBackendFrame | battle/src/framework/BackendCodec.cpp:46-63 | the in-place encoder of the C++ server produces the encoding |
| Framing.EncodeFrame | game/backend-framework/src/codec.rs:49-60 | the appending encoder of the Rust framework produces the same bytes, for every payload |
| Framing.BytesMut.TryExtractFrame | game/backend-framework/src/codec.rs:17-47 | a frame is taken off the front of the buffer, or nothing is while it is incomplete |
| Framing.BytesMut.Receive | game/backend-framework/src/gateway_client.rs:141-150 | a turn of the read loop takes every complete frame out of the buffer |
| Framing.DecodersAgree | battle/src/framework/BackendCodec.cpp:65-114 | the C++ decoder takes the same frame from the same bytes as the Rust one, refuses the same lengths, and decodes what either encoder made |
| PendingRequests.RpcManager.NextRequestId | battle/src/framework/RpcManager.cpp:6-13 | request numbers stay positive and wrap to 1 |
| PendingRequests.RpcManager.AddPending | battle/src/framework/RpcManager.cpp:15-26 | a request with a callback becomes the pending entry of its number, one without leaves the table as it was |
| PendingRequests.RpcManager.Resolve | battle/src/framework/RpcManager.cpp:28-42 | a response takes the pending entry out before its callback is called, once |
| PendingRequests.RpcManager.Update | battle/src/framework/RpcManager.cpp:49-73 | time passes for every entry, and the callbacks of exactly the expired ones are called, after the table is settled |
| PendingRequests.RpcManager.FailAll | battle/src/framework/RpcManager.cpp:75-87 | every pending callback is called once with the error, on an empty table |
| Relay.RequestKeeps | battle/src/framework/BackendClient.cpp:121-136 | making a request keeps the invariant, whether or not it could be sent |
| Relay.DeliverKeeps | battle/src/framework/BackendClient.cpp:462-483 | delivering a frame, again or out of order, keeps the invariant; `RelayAnswers` says what it brings about |
| Relay.TakenKeeps | battle/src/framework/RpcManager.cpp:49-87 | taking entries out of a table and calling their callbacks later keeps the invariant, whatever those do |
| Relay.RunKeeps | battle/src/framework/BackendClient.cpp:462-594 | every run of requests, deliveries, losses, timeouts and failures keeps the invariant |
| Relay.Accounting | battle/src/framework/RpcManager.cpp:6-87 | registered callbacks are those pending, about to be called, called and removed, and nothing is counted twice |
| Relay.EveryRun | battle/src/framework/BackendClient.cpp:462-483 | over a relay that loses, repeats and reorders, each callback is called at most once, and with a frame only when that frame answers its very request |
| RelayAnswers.RequestGoesOut | battle/src/framework/BackendClient.cpp:121-136 | a request that is sent puts its frame under way and waits if it has a callback; one that could not be sent leaves nothing behind |
| RelayAnswers.RequestIsHandled | battle/src/framework/BackendClient.cpp:562-594 | a delivered request that is answered adds to the frames under way just the response, back to the sender and with the number of the request |
| RelayAnswers.ResponseCalls | battle/src/framework/RpcManager.cpp:28-42 | a delivered response adds a call if and only if its number is pending at the receiver, that of the callback that waits, with the frame, and that one waits no more |
| RelayAnswers.RequestIsAnswered | battle/src/framework/BackendClient.cpp:462-594 | after any run, delivering the frame of a waiting request to a server that answers and then the response calls its callback exactly once, with its own answer |
| RelayAnswers.TimeTakes | battle/src/framework/RpcManager.cpp:49-73 | time passing takes exactly the requests whose time is up and calls for each |
| RelayAnswers.TimesOut | battle/src/framework/RpcManager.cpp:49-73 | a request whose server lets its time pass waits no more at the end of the run, whatever else happens |
| RelayAnswers.NumbersCycle | battle/src/framework/RpcManager.cpp:6-13 | the n-th request number after a number is the one n places on in the cycle from 1 to the largest, so that no number returns before all the others |
| Rooms.CreateKeeps | battle/src/battle/BattleRoomManager.cpp:16-38 | creating a room keeps index, seats and limits |
| Rooms.AddKeeps | battle/src/battle/BattleRoomManager.cpp:54-69 | seating a player keeps index, seats and limits |
| Rooms.RemoveKeeps | battle/src/battle/BattleRoomManager.cpp:71-88 | removing a player, and the room it empties, leaves no dangling index entry |
| Rooms.CreateExactly | battle/src/battle/BattleRoomManager.cpp:16-38 | creating adds an empty room under a new number, if it is not zero, the limit allows one and it comes up, and changes nothing else |
| Rooms.AddExactly | battle/src/battle/BattleRoomManager.cpp:54-69 | adding seats just that session in just that room |
| Rooms.RemoveExactly | battle/src/battle/BattleRoomManager.cpp:71-88 | after removal the session has no seat and sits in no room, every other keeps its seat, a room is held if and only if the session was not its only player, and a room that stays loses only the session |
| Rooms.HeldWhileOccupied | battle/src/battle/BattleRoomManager.cpp:16-103 | over every run, once someone has sat in a room it is held exactly as long as someone sits in it, until it is created again |
| Rooms.RunKeeps | battle/src/battle/BattleRoomManager.cpp:16-103 | over every run a session is indexed to a room exactly when that room exists and seats it, and the limits hold |
| Rooms.EveryRun | battle/src/battle/BattleRoomManager.cpp:16-103 | after every run from a new manager a session is indexed to a room exactly when the room seats it, the seats summed are the sessions, no session sits twice, and the room, session and seat limits hold |
| Rooms.SeatsAreSessions | battle/src/battle/BattleRoomManager.cpp:54-88 | the seats summed over all rooms are the active sessions, and no session sits in two rooms |
| Rooms.SeatedIff | battle/src/battle/BattleRoomManager.cpp:54-103 | a new session is seated if and only if a further room could still be created, a session is free, the room is not full and the actor spawned |
| Rooms.FullOfEmptyRoomsReached | battle/src/battle/BattleRoomManager.cpp:16-103 | as many creations as rooms are allowed fill a new manager with rooms nobody sits in, and no further run of calls changes it |
| Rooms.EverSeatedIff | battle/src/battle/BattleRoomManager.cpp:54-103 | some run seats someone in a manager nobody sits in if and only if it allows a session and either two more rooms, or one more beside a room with a seat |
| Rooms.EverSeatedFromEmpty | battle/src/battle/BattleRoomManager.cpp:54-103 | a new manager can come to seat someone if and only if it allows two rooms and a session |
| RoomManager.BattleRoom.AddPlayer | battle/src/battle/BattleRoom.cpp:49-92 | a room seats a player who is new, or is content with one it has, unless it is full |
| RoomManager.BattleRoomManager.CreateRoom | battle/src/battle/BattleRoomManager.cpp:16-38 | the map of room objects follows the state machine, and an existing room is returned as it is |
| RoomManager.BattleRoomManager.FindRoomBySession | battle/src/battle/BattleRoomManager.cpp:46-52 | a session finds a room exactly when it is indexed, and that room seats it |
| RoomManager.BattleRoomManager.AddPlayerToRoom | battle/src/battle/BattleRoomManager.cpp:54-69 | seating in a room object follows the state machine and succeeds exactly when the session ends indexed |
| RoomManager.BattleRoomManager.RemovePlayer | battle/src/battle/BattleRoomManager.cpp:71-88 | removal follows the state machine, destroying the emptied room object |

## Left out

- Double values: a literal that no 64-bit integer holds is kept as its text; strtod, dtoa, NaN and infinities, full
  precision and numbers-as-strings flags are not part of this model.
- The printers of integers in `internal/itoa.h`: integers are printed by the mathematical decimal printer.
- SIMD variants of whitespace skipping and string scanning.
- Numbers.ParseNumber: the exponent and fraction counts of texts of 2^27 bytes and more, whose `int` arithmetic may overflow in the source, are unbounded here.
- The parser's string stack counts its bytes in 32 bits; strings of 4 GiB and more, where that count wraps, are not modelled.
- `IterativeParseNext`, which hands out one token of the table-driven parser at a time.
- The unguarded takes of `UTF8::Decode` on text that ends inside a character read the terminating NUL again and again here, the bytes behind it in the source.
- Documents that own strings by reference, copy semantics, and the layout of the value union.
- TreeEditing.Subtree.Create: the tree is a value in a field and the cursor a list of slots, so aliasing of subtrees and reallocation of element arrays are not captured.
- PointerObject.GenericPointer.Stringify: only for names under 4 GiB, whose lengths the 32-bit field holds.
- Pointer comparison by order, `GetUri`, `Append` beyond what the schema compiler uses, and pointers made from user-supplied tokens.
- SchemaPlaces.UniverseIsClosed: the scope in which a schema is met is any function of its pointer, and the plain names that OpenAPI versions refuse are resolved.
- Schema validation, regular expressions, error reports, OpenAPI variants of the keywords, and remote documents beyond the schema they supply.
- Allocator.MemoryPoolAllocator.Malloc: one handle built with a chunk size; shared handles, user buffers and the reference count are left out, and requests are those in which no sum wraps, the exact condition being `BlockHoldsIffNoWrap`.
- MembersMap.ObjectData.DoAddMember: additions for which the grown capacity fits its 32-bit field; past that the source would write behind its array.
- MembersMap.ObjectData.DoFindMember: with duplicate names the multimap may give any of them, as the container of the source may.
- Framing.EncodeBackendFrame: payloads whose frame length fits 32 bits; past that the source copies behind its string.
- Parsing.ParseStream: the events reach the document after the reader has run, which its handlers, always answering true, cannot tell from the source's order; texts under 4 GiB.
- InsituParsing.IterativeParseInsitu: parsing in place is carried to whole documents for the table-driven parser; recursive descent in place is proved string by string.
- Equality.EqualIffSame: comparisons that involve a double are a parameter.
- Hashing.SameHash: that values apart in more than one place hash apart is not claimed.
- Relay.EveryRun: request numbers are assumed not to be reused while pending or carried by a frame under way, and the relay's outer frames to carry serial 0; connection set-up, sessions and heartbeats are not modelled.
- The increment of the request number at the largest 32-bit value is modelled as the wrap its guard intends.
- Rooms.AddKeeps: a player is added to a room the manager still holds; a reference to a destroyed room is not modelled.
- The game world inside a room, its ticks, inputs and snapshots.
- The gateway, networking, timers' clocks, logging, generated message code and configuration.
