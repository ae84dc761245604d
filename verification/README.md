# Verification of the JSON engine

The component model's discovery interface includes a single-header JSON engine, `include/json.h`. This
project models the parts of it that carry the hard arguments, and proves what its documentation and
comments promise, or exactly when they hold.

- **Printing floats.** `Arith`, `Decimal`, `DiyFp`, `Doubles`, `CachedPowers`, `Grisu`, `GrisuDouble`,
  `NumberToken`, `NumberGrammar`, `FloatText`: the Grisu2 algorithm from the bit pattern of a double to its text. All
  64-bit words are bounded naturals, so that every operation carries the proof that it does not wrap
  around; claims about values are over exact integers and reals.
- **Values.** `Json`, `Equality`: null, booleans, signed and unsigned 64-bit integers, doubles as bit patterns,
  strings as bytes, arrays, and objects as maps that are iterated in byte order; equality is the one of
  `operator==`, by which integers of different kinds can be equal and NaN equals nothing.
- **Pointers, patches, flattening.** `Pointer`, `Patch`, `Diff`, `Flatten`, `MergePatch`: JSON Pointer
  (RFC 6901), JSON Patch (RFC 6902) with the generator of differences, flatten and unflatten, and JSON
  Merge Patch (RFC 7396). `Places`, `PointerLaws`, `PatchLaws`, `AddLaws`, `DiffLaws`, `FlattenLaws`: what
  each operation means for every input, by looking up what is found where before and after it.
- **Text.** `Utf8`, `Strings`, `Buffers`, `Serializer`, `Lexer`, `Parser`, `TextRoundTrip`: the
  table-driven UTF-8 automaton, the escaper with its fixed buffers, the scanner, the recursive-descent
  parser with its acceptor (RFC 7159), and the round trip through text. `StringGrammar`, `TextGrammar`,
  `DumpLaws`: the grammar of that RFC as trees that hold every byte of a text, apart from scanner and
  parser, against which parsing and dumping are held.
- **Binary formats.** `Binary`, `Cbor`, `MsgPack`, `Ubjson`: writers and readers, and their round trips.
  `CborLaws`, `MsgPackLaws`, `UbjsonLaws`: the tables of the formats, the messages that no writer makes,
  and those that are rejected.

Exceptions are error results with the engine's own numbers. Code that changes buffers, streams or
objects is imperative: classes for the serializer, the lexer, the parser and the binary readers and
writers, methods with loops for the rest. Each method is proved against a function or a relation, and
the theorems are about those. Lemmas carry `{:induction false}`, so each proof shows its own induction.

`dafny verify dfyconfig.toml` checks everything.

## Model

| member | source | states |
|---|---|---|
| DiyFp.Mul | include/json.h:7222-7281 | The 32-bit schoolbook product with its carry is exactly the 128-bit product divided by 2^64, rounded half up; the exponents add up plus 64, and no intermediate or final sum leaves 64 bits. |
| DiyFp.Normalize | include/json.h:7287-7298 | The shift loop ends with the top bit set and the value unchanged, in the unique normal form. |
| Doubles.ComputeBoundaries | include/json.h:7328-7394 | Every shift of the significands fits 64 bits, and the three results are the ones the midpoint theorem speaks of. |
| Doubles.BoundariesAreMidpoints | include/json.h:7360-7393 | For every finite positive double the computed w is its exact value, and m- and m+ are exactly halfway to the preceding and the following double, at binade boundaries and for denormals as well. |
| Doubles.BoundariesSpread | include/json.h:7381-7393 | The boundaries share one exponent within [-1137, 960], are at least 512 and 1024 units away from w, and span more than a 2^53rd part of m+. |
| Doubles.ValueIncreasing | include/json.h:7351-7358 | The value is strictly increasing in the bit pattern, so patterns that follow each other are neighbouring doubles. |
| CachedPowers.TableAccurate | include/json.h:7524-7605 | Each of the 79 entries is within half a unit in its last place of its power of ten, by exact arithmetic. |
| CachedPowers.IndexFits | include/json.h:7607-7623 | For every exponent a double can have, the integer approximation of the logarithm picks an index inside the table, and the exponent of the product lies in [alpha, gamma]. |
| CachedPowers.CachedPowerFor | include/json.h:7468-7626 | The chosen power is normalized, accurate, and brings the exponent into range. |
| Grisu.Grisu2Round | include/json.h:7688-7723 | Decrementing the last digit stops at a nearest multiple of the unit to w among all that lie in [M-, M+]; the digit never goes below '0', and no other byte of the buffer changes. |
| Grisu.LastDigitPositive | include/json.h:7715-7722 | Where the rounding loop may decrement, the last digit is not '0': otherwise generation would have stopped one digit earlier. |
| Grisu.IntegralDigits | include/json.h:7765-7851 | The first loop keeps M+ = buffer * 10^n + rest, emits decimal digits with a non-zero first one, and either stops with a shortest and closest number or has the whole integral part. The commented invariant pow10 <= p1 < 10^n holds at every loop head exactly if none of the heads that the loop reaches has a digit '0' of p1 next. |
| Grisu.InvariantExactly | include/json.h:7795-7797 | For every p1 and every n up to its number of digits: what is left of p1 with n digits to go is at least 10^(n-1) exactly if the next digit is not '0'; it is always below 10^n. |
| GrisuDouble.InvariantFails | include/json.h:7795-7797 | For the double nearest to 1.01 the loop reaches the head with n = 4 and pow10 = 1000, where only 100 is left. |
| Grisu.FractionalDigits | include/json.h:7853-7947 | The second loop keeps the same invariant while p2, delta and dist grow tenfold without leaving 64 bits, ends after at most 17 digits in all, and leaves a shortest and closest number. |
| Grisu.SeventeenSuffice | include/json.h:7949-7961 | As long as generation has not stopped, fewer than 17 digits are out, provided the interval is not narrower than a 10^-16th of M+. |
| Grisu.Grisu2DigitGen | include/json.h:7729-7962 | Of all multiples of ten times the final unit none lies in [M-, M+], the result is a nearest to w of the multiples of the unit in it, and it has at most 17 digits. |
| GrisuDouble.ScaledIntervalFits | include/json.h:7984-8015 | For every finite positive double the scaled and tightened interval meets all that digit generation asks of its arguments. |
| GrisuDouble.ShortestIsSafe | include/json.h:7993-8015 | Despite the rounding of the products and of the table, every number generated from [M-, M+] lies strictly between the midpoints to the neighbouring doubles. |
| GrisuDouble.IntervalIsTight | include/json.h:7984-8015 | The interval is not narrower than that calls for: its ends lie less than two units inside the exactly scaled midpoints, and w is less than one unit off. |
| GrisuDouble.LastDigit | include/json.h:7688-7723 | The digits that are kept neither start nor end with a zero. |
| GrisuDouble.Grisu2 | include/json.h:7969-8059 | For every finite positive double: between 1 and 17 decimal digits, the first not '0', whose value rounds to that double, and which are the shortest and closest for the interval of the algorithm. |
| GrisuDouble.ReadsBack | include/json.h:7371-7373 | A number strictly between the midpoints is nearer to the double than to any other double, so that no way of breaking ties matters. |
| FloatText.AppendExponent | include/json.h:8066-8105 | The exponent is written with its sign and at least two digits, and nothing in front of it changes. |
| FloatText.FormatBuffer | include/json.h:8116-8184 | Moving and filling the digits in place gives one of the layouts for exactly these digits and this exponent, and nothing in front of them changes. |
| FloatText.LayoutIsFaithful | include/json.h:8129-8183 | In all layouts the text denotes exactly digits * 10^exponent, and the number scanner takes all of it as one float token. |
| FloatText.LayoutIsCanonical | include/json.h:8107-8184 | Plain notation is written exactly for values from 0.0001 up to, but without, 10^15, with no superfluous zero on either side of the point; beyond, one digit other than zero in front of the point, a fraction that does not end in zero, and a sign with at least two digits in the exponent. |
| FloatText.PrintMagnitude | include/json.h:8211-8241 | Zero gives "0.0", and any other finite double a float token in that notation that denotes shortest digits rounding to it. |
| FloatText.ToChars | include/json.h:8198-8242 | The same with the sign, for every finite double and both zeros. |
| Json.EqReflexive | include/json.h:15078-15141 | A value without NaN equals itself. |
| Json.ToDoubleIsNearest | include/json.h:15115-15130 | An integer of up to 64 bits is compared with a float as the nearest double, ties to even; with up to 53 bits the conversion is exact. |
| Json.EqNoNaN | include/json.h:15078-15141 | Nothing equals a value that holds a NaN, at any depth. |
| Json.LessExactly | include/json.h:9976-10024 | The order of keys: at the first position where two texts differ, the smaller byte or the end of the text comes first. |
| Equality.Symmetric | include/json.h:15078-15141 | Equality is symmetric, through all mixed kinds of numbers. |
| Equality.Identity | include/json.h:15078-15141 | A value that holds no number at any depth equals itself and nothing else. |
| Equality.SameType | include/json.h:15078-15141 | Equal values have the same type, where all kinds of numbers count as one. |
| Equality.Integers | include/json.h:15131-15138 | Integers of any kinds are equal exactly if the numbers agree modulo 2^64. |
| Equality.Floats | include/json.h:15108-15109 | Two floats are equal exactly if both are finite with the same value, so that the zeros are equal, or both are the same infinity. |
| Equality.FloatAndInteger | include/json.h:15115-15130 | A float equals an integer of either kind exactly if it is finite and its value is that of a double nearest to the integer, ties to even, with its sign. |
| Pointer.ReplaceSubstring | include/json.h:9492-9501 | The in-place loop, whose search goes on behind each replacement, replaces all non-overlapping occurrences from left to right. |
| Pointer.EscapeCons | include/json.h:9504-9509 | The two replacement passes together escape byte by byte: '~' as "~0", '/' as "~1". |
| Pointer.UnescapeCons | include/json.h:9512-9516 | The two passes back together decode byte by byte, in this order. |
| Pointer.EscapeToken | include/json.h:9504-9509 | The function made of two replacement loops computes the escaping. |
| Pointer.UnescapeToken | include/json.h:9512-9516 | The same for unescaping. |
| Pointer.UnescapeEscape | include/json.h:9503-9516 | Unescaping undoes escaping for every token, and an escaped token holds no slash and only proper escapes. |
| Pointer.EscapeUnescape | include/json.h:9503-9516 | Escaping undoes unescaping for every properly escaped text. |
| Pointer.SplitPointer | include/json.h:9417-9480 | The loop over the slashes, with its check of the escapes, splits into the tokens of the specification or gives its parse error. |
| Pointer.SplitToString | include/json.h:8984-9004 | Splitting a printed pointer gives back every list of tokens. |
| Pointer.ToStringSplit | include/json.h:9417-9480 | Printing what was split gives back every text that is accepted. |
| Pointer.ToStringInjective | include/json.h:8996-9004 | Different lists of tokens have different texts. |
| PointerLaws.SplitFails | include/json.h:9417-9480 | A text is rejected with 107 exactly if it starts with something else than a slash, and with 108 exactly if it starts with one and has a tilde that is followed by neither 0 nor 1; every other text is split. |
| PointerLaws.EscapedBytes | include/json.h:9504-9509 | A tilde is escaped as ~0, a slash as ~1, and every other byte stays. |
| Pointer.IndexToken | include/json.h:9019-9031 | The decimal text of an index is read back as that index exactly if it fits an int; otherwise the conversion throws. |
| PointerLaws.IndexExactly | include/json.h:9019-9031 | A token is taken for the index v exactly if it is white space, an optional sign and decimal digits that denote v, and v fits int. |
| PointerLaws.IndexOutcome | include/json.h:9019-9031 | A number that starts the token but does not fit int is out of range; if it fits but something follows, the token cannot be resolved. |
| PointerLaws.NoIndex | include/json.h:9019-9031 | The conversion finds no number exactly if the token does not start with one behind its white space. |
| Patch.PatchValue | include/json.h:16677-16940 | The loop over the operations applies them in turn, each to the result of the one before, and stops at the first error. |
| PatchLaws.AtLooks | include/json.h:9232-9281 | A lookup with range check finds what the tokens select one by one. |
| PatchLaws.AtFails | include/json.h:9232-9281 | It fails with 403 for a missing key, 404 below a primitive, 401 beyond the end and 402 for a dash. |
| AddLaws.LookupInArray | include/json.h:9249-9277 | The last token in an array, whatever it is: 402 for a dash, 106 for a leading zero, 109 for no number, 401 out of range, and otherwise the element. |
| PatchLaws.AddElement | include/json.h:16750-16766 | `add` at an index up to the length of an array, at any path, inserts there: the elements before it stay and those from it on move up by one; `remove` at the same path restores the document. |
| PatchLaws.AddAtEnd | include/json.h:16748-16752 | `add` at a dash appends. |
| PatchLaws.AddFails | include/json.h:16755-16760 | An index beyond the end gives 401, and one that does not fit int is out of range. |
| PatchLaws.RemoveElement | include/json.h:16799-16803 | `remove` takes the element out and moves those behind it down; adding it there again restores the document. |
| PatchLaws.RemoveFails | include/json.h:16783-16803 | `remove` fails with 403 for a missing key, 401 beyond the end, and 405 at the root. |
| PatchLaws.AddMember | include/json.h:16740-16746 | `add` sets a member whether or not the key is there; `remove` takes it out, which restores the document if the key was new. |
| PatchLaws.RemoveMember | include/json.h:16786-16797 | `remove` takes exactly the member out, and adding it again restores the document. |
| PatchLaws.AddElsewhere | include/json.h:16715-16746 | `add` at the root replaces the document, and below a null it makes an object of one member. |
| AddLaws.AddNeedsTop | include/json.h:16725-16734 | With several tokens, `add` fails as the lookup of the first one does; if that succeeds, the rest is opened. |
| AddLaws.AddOpens | include/json.h:9156-9224 | Opening, token by token: null becomes an array for digits or a dash and an object otherwise, the error is 106, 109 or 404 where the token leads nowhere, and otherwise the value arrives there, everything else stays, and only null fills a gap. |
| AddLaws.LastInArray | include/json.h:16750-16803 | The last token in an array, for `add` and `remove`: any text that converts to an index in range acts like its plain form, 401 out of range, and the error of the conversion otherwise. |
| AddLaws.NoContainer | include/json.h:16769-16803 | Below any other value, `add` meets the assertion and `remove` changes nothing. |
| PatchLaws.ReplacePart | include/json.h:16868-16873 | `replace` changes exactly the part at the path. |
| PatchLaws.MissingPart | include/json.h:16868-16925 | Where nothing is found, `replace`, `move` and `copy` fail as the lookup does, and `test` with 501, except for errors that are not about range. |
| PatchLaws.CopyPart | include/json.h:16892-16905 | `copy` is `add` of what is found at `from`, in the unchanged document. |
| PatchLaws.MovePart | include/json.h:16875-16890 | `move` is `remove` at `from`, then `add` of what was found there. |
| PatchLaws.MoveArrives | include/json.h:16875-16890 | What `move` takes from one place arrives at the other, and removing it there leaves the document without it. |
| PatchLaws.TestPart | include/json.h:16907-16928 | `test` leaves the document as it is and succeeds exactly on an equal value; otherwise it fails with 501. |
| DiffLaws.ParseExactly | include/json.h:16817-16863 | A value is read as an operation exactly if it is an object that holds every member of the operation's document, whatever else it holds. |
| DiffLaws.ParseFails | include/json.h:16817-16863 | What cannot be read fails with 104 if it is no object, else with 105 or with the error of its pointer. |
| DiffLaws.PatchSequence | include/json.h:16842-16937 | A patch of two parts is the second part applied to the outcome of the first. |
| DiffLaws.PatchOne | include/json.h:16808-16937 | A patch of one document applies its operation, the empty patch changes nothing, and what is no array of objects fails with 104. |
| Diff.SomeOps | include/json.h:16975-16984 | The difference is empty exactly if the values are equal. |
| DiffLaws.OpsLocal | include/json.h:16975-17098 | Every operation of a difference is local: a replacement stands where source and target differ and are not containers of one type, with the target's part; a removal takes out of a common container what only the source has; an addition puts in what only the target has. |
| DiffLaws.DocumentForm | include/json.h:16988-17083 | The documents have exactly the members op, path and, where called for, value or from, with the names of the operations. |
| Diff.DiffValue | include/json.h:16975-17098 | The recursion over path texts writes exactly the documents of the operations of the specification, below its path. |
| Diff.DiffArrays | include/json.h:16999-17041 | The loops over common, surplus and missing elements: changes first, then removals from the end, then additions at the end. |
| Diff.DiffObjects | include/json.h:17043-17083 | The pass over the source's keys and the pass over the target's keys. |
| Diff.ParseEncode | include/json.h:16849-16873 | Every operation is read back from its document, whatever its path tokens contain. |
| Diff.ApplyDocuments | include/json.h:16813-16937 | Applying the documents is applying the operations. |
| Diff.Law | include/json.h:16677-17098 | On operations: applying the difference leads to a value equal to the target, or to an exception exactly if an index on a changed path does not fit an int. |
| Diff.PatchOfDiff | include/json.h:16948-16952 | patch(diff(source, target)) equals target if and only if the target holds no NaN and every index on a changed path fits an int; with an index that does not fit it throws. |
| Diff.PatchOfDiffShort | include/json.h:16948-16952 | The documented law holds for all values without NaN whose arrays have at most 2^31 elements. |
| Diff.NaNIsLost | include/json.h:16948-16952 | With the target NaN the law fails for every source. |
| Diff.LongTailIsLost | include/json.h:16948-16952 | From an array of more than 2^31 elements to the empty one the patch throws. |
| Flatten.FlattenInto | include/json.h:9525-9575 | The recursion writes the leaves of the value under their pointers and touches no other entry. |
| Flatten.FlattenValue | include/json.h:16579-16584 | The flattened object maps exactly the pointers of the leaves to the leaves. |
| FlattenLaws.FlatExactly | include/json.h:9525-9575 | A text maps to a value in the flattened object exactly if it is the pointer to a primitive, which is the value, or to an empty array or object, which leaves null. |
| Flatten.UnflattenValue | include/json.h:9587-9613 | The loop in key order builds the value, or gives the error of the first entry that cannot be placed. |
| FlattenLaws.UnflattenExactly | include/json.h:9587-9613 | For every input: 314 for what is no object, null for the empty object, and otherwise the outcome without the greatest key, in which that key is assigned last: 315 for a container, the error of the pointer, or the value at its place. |
| FlattenLaws.CreateStep | include/json.h:9076-9136 | One token: null becomes an array exactly for "0" and else an object, 313 below another primitive, 109 for no number in an array; otherwise what the rest creates arrives there, everything else stays, and only null fills a gap. |
| FlattenLaws.CreateArrives | include/json.h:9076-9136 | What is assigned is found by following the tokens. |
| FlattenLaws.CreateKeeps | include/json.h:9076-9136 | What is found at a path that parts from it stays. |
| Flatten.UnflattenFlatten | include/json.h:16599-16602 | unflatten() restores a flattened value if and only if it holds no NaN, no empty container and no array of more than 2^31 elements, and no object in it has keys that let a path through the key "0" come first. |
| Flatten.StartsAtZeroExactly | include/json.h:9085-9099 | Whether the first path of an object leads through "0" can be told from the first two bytes of its keys and from whether the value at "0" is a leaf. |
| Flatten.ArrayStartsAtZero | include/json.h:9085-9099 | In byte order the first path of a non-empty array leads through index 0, so that its place becomes an array. |
| Flatten.PlainIsRestorable | include/json.h:16599-16602 | In particular every value without a key "0", without empty containers and NaN, and with arrays of at most 2^31 elements is restored. |
| Flatten.KeyZeroIsLost | include/json.h:16599-16602 | {"0": null} comes back as [null]. |
| MergePatch.TurnsMerge | include/json.h:17159-17169 | Taking the members of the patch in any order gives what section 2 of RFC 7396 defines. |
| MergePatch.MergePatchInto | include/json.h:17151-17175 | The loop that changes the target refines that recursive definition. |
| MergePatch.MergedAt | include/json.h:17115-17134 | For every path of keys: where the patch ends on the way in a value other than an object, the result has there what that value has, or nothing for null; where the patch is silent it has what the target had; and where the patch has an object there is one. |
| MergePatch.MergedExactly | include/json.h:17115-17134 | The result is the only value of which that holds at all paths. |
| MergePatch.Idempotent | include/json.h:17151-17175 | Applying a patch a second time changes nothing. |
| MergePatch.MergeIntoNothing | include/json.h:17151-17175 | Applied to anything but an object, a patch without null is the result itself. |
| MergePatch.MergeKeepsNullFree | include/json.h:17161-17168 | A target without null stays without null. |
| Utf8.DecodeEncode | include/json.h:2143-2172 | Encoding a scalar value gives one well-formed sequence that denotes it (section 3 of RFC 3629). |
| Utf8.EncodeDecode | include/json.h:8833-8835 | Every well-formed sequence is the encoding of the code point it denotes. |
| Utf8.DecodeStep | include/json.h:8809-8839 | One step of the table automaton accepts exactly at the end of a well-formed sequence, with its code point, and rejects exactly where no well-formed sequence can go on. |
| Utf8.TableAccepts | include/json.h:8809-8839 | The automaton accepts a byte string if and only if it is well-formed by section 4 of RFC 3629. |
| Strings.ScanEscaped | include/json.h:8514-8654 | Scanning an escaped string, followed by a quote and anything else, gives the string back and stops behind the quote, in both escaping modes. |
| Strings.ScannedIsWellFormed | include/json.h:2065-2494 | Every string the scanner yields is well-formed UTF-8, surrogate pair escapes included. |
| StringGrammar.ScansExactly | include/json.h:2065-2494 | The scanner takes exactly the strings of section 7 of RFC 7159 and gives their contents: characters for themselves, the eight short escapes, four hexadecimal digits in either case, and surrogate pairs. |
| Strings.EscapedPrintable | include/json.h:8579-8606 | With ensure_ascii every byte of the escaped text is in 0x20..0x7E. |
| Buffers.ReverseBuffer | include/json.h:8698-8698 | The bytes are reversed in place and those behind them stay. |
| Serializer.Serializer.PutChar | include/json.h:8526-8607 | One character is written to the buffer as its escape sequence or as its last byte, within 13 bytes. |
| Serializer.Serializer.DumpEscaped | include/json.h:8514-8654 | Succeeds exactly on well-formed UTF-8 and then writes the escaped string; the 512-byte buffer never overflows. |
| Serializer.Serializer.DumpInteger | include/json.h:8665-8700 | Writes the decimal text, with the sign, for every int64 and uint64, within the 64-byte buffer. |
| Serializer.Serializer.DumpFloat | include/json.h:8710-8737 | Writes null for NaN and infinities, and otherwise a float text whose value rounds to the double. |
| Serializer.Serializer.Dump | include/json.h:8307-8497 | Succeeds exactly if every string and key is well-formed, and then writes a compact text of the value. |
| DumpLaws.StringWritten | include/json.h:8500-8607 | An escaped string is its characters, each in one spelling: a short escape where there is one, lower-case hexadecimal digits for other control characters and, with ensure_ascii, beyond 0x7E, surrogate pairs beyond 0xFFFF, and itself otherwise. |
| DumpLaws.TreeDumped | include/json.h:8307-8497 | Every dump is written by a tree of the text grammar without white space, with all keys in ascending order and each once, canonical strings, integers without superfluous zeros or signs, float texts as above, and null for floats that are not finite. |
| Lexer.Lexer.GetCodepoint | include/json.h:1980-2011 | Reads four hexadecimal digits, or fails. |
| Lexer.Lexer.NextByteInRange | include/json.h:2028-2048 | Succeeds exactly if the following bytes are in the ranges, and then appends them. |
| Lexer.Lexer.ScanString | include/json.h:2065-2494 | The loop yields the string of the specification and consumes exactly its text, or fails exactly where that does. |
| NumberGrammar.NumberIsAccepted | include/json.h:2551-2829 | The automaton accepts a text exactly if it is [minus] int [frac] [exp] by section 6 of RFC 7159, and the parts that are present decide the kind. |
| NumberGrammar.LexemeIsNumber | include/json.h:2551-2829 | Whatever the scanner takes is a number of that grammar, with the kind by its parts, and no byte that continues it follows. |
| NumberGrammar.NumberIsLexeme | include/json.h:2551-2829 | Every number of the grammar is taken as a whole, with the kind by its parts, unless the next byte continues it. |
| NumberGrammar.ContinuesExactly | include/json.h:2551-2829 | A byte behind a number starts a longer one exactly if it is a digit and the number is no bare zero, a point before any point or exponent, or an exponent mark before any exponent. |
| NumberGrammar.ScanIsLongest | include/json.h:2551-2829 | The scanner takes the longest beginning of the input that some number starts with if that is a number, and fails otherwise. |
| NumberGrammar.InvalidExactly | include/json.h:2551-2829 | The scanner fails exactly if that longest beginning is no number itself. |
| Lexer.Lexer.RunAutomaton | include/json.h:2551-2829 | The labelled states with their gotos take exactly the lexeme and kind that ScanNumber gives, which the rows above tie to the grammar, and give the byte behind it back. |
| Lexer.Lexer.ScanNumber | include/json.h:2551-2876 | The token is unsigned, signed or float by the lexeme; integers that do not fit 64 bits become floats. |
| Lexer.Lexer.Scan | include/json.h:3025-3087 | The object refines the function from the rest of the input to the next token and what is left. |
| Parser.AcceptAgrees | include/json.h:3236-3248 | The acceptor says yes exactly if the parser yields a value, strict or not. |
| Parser.Parser.ParseInternal | include/json.h:3257-3534 | The recursive descent refines the grammar: the value and the rest of the input, or the recorded error; it ends because the rest of the input shrinks. |
| Parser.Parser.ParseText | include/json.h:3200-3228 | One value and, in strict mode, the end of the input. |
| TextGrammar.ParsesExactly | include/json.h:3200-3228 | Strict parsing succeeds exactly on the texts of section 2 of RFC 7159, up to the end or a zero byte, and gives what they stand for: runs of the four white space characters around every token, numbers by their range, and of several equal keys the first. |
| TextGrammar.ParsesStart | include/json.h:3200-3228 | Parsing that is not strict succeeds exactly on the inputs that start with such a value and no longer number. |
| TextGrammar.TooLarge | include/json.h:3493-3506 | A text of the grammar with a number that is too large gives 406. |
| TextGrammar.ParseErrors | include/json.h:3257-3534 | A text outside the grammar gives 101, or 406 for a number in front of the error. |
| TextGrammar.NoTrailingComma | include/json.h:3375-3440 | In no array is a comma accepted in front of the closing bracket, or a colon between elements. |
| TextGrammar.MarkIsSkipped | include/json.h:1700-1708 | A byte order mark in front of a text is skipped, and no text contains one there. |
| Parser.Parser.AcceptInternal | include/json.h:3546-3647 | The acceptor's own descent refines its grammar, which builds no value. |
| Parser.Parser.AcceptText | include/json.h:3236-3248 | The answer is that of the acceptor's grammar. |
| TextRoundTrip.TextUnique | include/json.h:8198-8242 | No text is written for two different doubles. |
| TextRoundTrip.CorrectReaderExists | include/json.h:8719-8721 | There is a reader that turns every written float text back into its double, so that the next theorems are not about nothing. |
| TextRoundTrip.ParseOfDump | include/json.h:8307-8497 | Parsing any dump strictly gives the value with normalized number kinds and with null for non-finite floats. |
| TextRoundTrip.RoundTrip | include/json.h:8307-8497 | Parsing succeeds on any dump, and the result equals the value if and only if all its floats are finite. |
| TextRoundTrip.ParsedCanBeDumped | include/json.h:3200-3228 | Every value the parser yields can be dumped. |
| TextRoundTrip.DumpPrintable | include/json.h:8307-8497 | With ensure_ascii every byte of a dump is in 0x20..0x7E. |
| TextRoundTrip.DumpAndParse | include/json.h:8307-8497 | The serializer followed by the parser, on objects: a text exactly for dumpable values, and from it the normalized value. |
| Binary.NumberRoundTrip | include/json.h:5657-5681 | Bytes written highest first are read back as the same number, for every width. |
| Binary.SignedRoundTrip | include/json.h:6899-6913 | Two's complement of every width is inverted by sign extension. |
| Binary.RenumberIsEqual | include/json.h:15131-15138 | Whatever kinds a reader gives to the integers, the value stays equal if and only if it holds no NaN. |
| Binary.ExactDoubleValue | include/json.h:5246-5256 | The exact conversion has the value mantissa * 2^exponent. |
| Binary.SingleIsExact | include/json.h:5258-5261 | A finite single-precision number is converted to the double of the same value and sign. |
| Binary.SingleWidened | include/json.h:5258-5261 | The same for every pattern: infinities become infinities and NaNs quiet NaNs, with the sign. |
| Binary.Source.GetNumber | include/json.h:5657-5681 | Filling the byte array from behind gives the big-endian number of the next bytes, or the error for a short input. |
| Binary.Source.GetString | include/json.h:5696-5707 | The next bytes, or the error for a short input; a negative length reads nothing. |
| Binary.Sink.WriteNumber | include/json.h:6898-6913 | Appends the number with its highest byte first. |
| Cbor.HeadIsShortest | include/json.h:6248-6487 | No other head for the same major type and argument is shorter (section 3.9 of RFC 7049). |
| Cbor.HalfIsExact | include/json.h:5226-5256 | A finite half-precision number is converted to the double of the same value and sign. |
| CborLaws.Table | include/json.h:15840-15865 | The bytes of every value that is no container are those of the table, with the arguments highest byte first. |
| CborLaws.ArrayTable | include/json.h:15866-15870 | An array is its head by the table and its elements in order. |
| CborLaws.ObjectTable | include/json.h:15871-15875 | An object is its head by the table and its members in the order of their keys, each the key as a string and the value. |
| CborLaws.ShortFloats | include/json.h:5226-5264 | 0xF9 and 0xFA are read as the doubles of the same sign and value, infinities and NaNs included, and leave what is behind. |
| CborLaws.WideHeads | include/json.h:4963-5225 | A head that is longer than it has to be is read like the shortest one, for integers, lengths and sizes. |
| CborLaws.NegativeWraps | include/json.h:5052-5056 | A negative integer below int64 is taken modulo 2^64. |
| CborLaws.Rejected | include/json.h:16180-16189 | The unsupported first bytes give 112, the end of the input 110, and a key that is no string 113. |
| CborLaws.SizedMap | include/json.h:5806-5820 | Of several members with one key in a map with a size the first counts. |
| CborLaws.BrokenOffMap | include/json.h:5200-5209 | In a map up to a break the last one counts. |
| CborLaws.DecodeExtends | include/json.h:4963-5278 | More input changes no outcome but an error for the end of the input, and a value leaves it behind. |
| CborLaws.CutOff | include/json.h:4887-4889 | Every proper beginning of a written message is rejected with 110. |
| CborLaws.TrailingBytes | include/json.h:4887-4901 | With anything behind it, a message that is accepted strictly is rejected with 110, and accepted otherwise. |
| Cbor.DecodeEncode | include/json.h:6248-6487 | Reading what was written, with anything behind it, gives the value with unsigned kinds and leaves exactly what was behind. |
| Cbor.RoundTrip | include/json.h:6248-6487 | A strictly read message gives the value back, equal if and only if it holds no NaN. |
| Cbor.IndefiniteArray | include/json.h:5141-5149 | The items of a definite-length array, read up to a break, give the same array (section 2.2 of RFC 7049). |
| Cbor.IndefiniteMap | include/json.h:5200-5209 | The same for a map, if its keys are distinct. |
| Cbor.IndefiniteString | include/json.h:5776-5784 | A string in chunks is the string of all their bytes. |
| Cbor.NoMark | include/json.h:1700-1708 | No written message starts with a byte order mark, which the input adapter would skip. |
| Cbor.Writer.Write | include/json.h:6248-6487 | Appends exactly the encoding, over all width branches. |
| Cbor.Reader.ParseInternal | include/json.h:4963-5278 | The object refines the decoding function, from the next byte or the current one. |
| Cbor.Reader.GetCborString | include/json.h:5721-5793 | Strings of definite and indefinite length refine their functions. |
| Cbor.Reader.GetCborArray | include/json.h:5795-5804 | The loop reads the given number of items, or gives the first error. |
| Cbor.Reader.GetCborObject | include/json.h:5806-5820 | The loop reads the given number of pairs; a key that occurs again is ignored. |
| Cbor.WriteAndParse | include/json.h:4892-4901 | The writer followed by the reader, on objects, restores the value. |
| MsgPack.DecodeEncode | include/json.h:6492-6726 | Reading what was written, with anything behind it, gives the value with unsigned kinds and leaves exactly what was behind, if all sizes are below 2^32. |
| MsgPackLaws.Table | include/json.h:15943-15967 | The bytes of every value that is no container are those of the table, with the arguments highest byte first. |
| MsgPackLaws.ArrayTable | include/json.h:15968-15970 | An array is its head by the table and its elements in order. |
| MsgPackLaws.ObjectTable | include/json.h:15971-15973 | An object is its head by the table and its members in the order of their keys. |
| MsgPackLaws.ShortFloats | include/json.h:5505-5506 | 0xCA is read as the double of the same sign and value, infinities and NaNs included, and leaves what is behind. |
| MsgPackLaws.WideIntegers | include/json.h:5511-5533 | Integers that are wider than they have to be are read as they are; a signed form stays signed. |
| MsgPackLaws.WideStrings | include/json.h:5833-5899 | The same for the lengths of strings, |
| MsgPackLaws.WideContainers | include/json.h:5535-5557 | and for the sizes of arrays and maps. |
| MsgPackLaws.Rejected | include/json.h:5280-5603 | The unsupported first bytes give 112, the end of the input 110, and a key that is no string 113. |
| MsgPackLaws.SizedMap | include/json.h:5912-5926 | Of several members with one key the first counts. |
| MsgPackLaws.DecodeExtends | include/json.h:5280-5603 | More input changes no outcome but an error for the end of the input, and a value leaves it behind. |
| MsgPackLaws.CutOff | include/json.h:4908-4910 | Every proper beginning of a written message is rejected with 110. |
| MsgPackLaws.TrailingBytes | include/json.h:4908-4922 | With anything behind it, a message that is accepted strictly is rejected with 110, and accepted otherwise. |
| MsgPack.RoundTrip | include/json.h:6492-6726 | A strictly read message gives the value back, equal if and only if it holds no NaN. |
| MsgPack.DecodedFits | include/json.h:5280-5603 | Whatever the reader makes has all sizes below 2^32, keys and nested values included. |
| MsgPack.RestoredExactly | include/json.h:6492-6726 | Writing and reading restores a value with its remainder if and only if every size in it, at any depth and in keys, is below 2^32. |
| MsgPack.EqualExactly | include/json.h:6492-6726 | An equal value comes back with its remainder if and only if, besides, the value holds no NaN. |
| MsgPack.LongStringIsLost | include/json.h:15979-15980 | A string of 2^32 bytes or more is written without a head and does not come back. |
| MsgPack.NoMark | include/json.h:1700-1708 | No written message starts with a byte order mark. |
| MsgPack.Writer.Write | include/json.h:6492-6726 | Appends exactly the encoding, over all width branches. |
| MsgPack.Reader.ParseInternal | include/json.h:5280-5603 | The object refines the decoding function. |
| MsgPack.Reader.GetMsgPackString | include/json.h:5833-5899 | Strings refine their function. |
| MsgPack.Reader.GetMsgPackArray | include/json.h:5901-5910 | The loop reads the given number of items, or gives the first error. |
| MsgPack.Reader.GetMsgPackObject | include/json.h:5912-5926 | The loop reads the given number of pairs; a key that occurs again is ignored. |
| MsgPack.WriteAndParse | include/json.h:4913-4922 | The writer followed by the reader, on objects, restores the value. |
| Ubjson.DecodePayload | include/json.h:6734-6886 | Behind its marker, which may be the common one of a container, every payload is read back. |
| UbjsonLaws.NumberIs | include/json.h:16046-16056 | Every integer is written under the marker of the table for its range, with its payload highest byte first. |
| UbjsonLaws.Table | include/json.h:16039-16058 | The marker and payload of every value that is no container are those of the table. |
| UbjsonLaws.ArrayTable | include/json.h:6795-6834 | An array in each of the three modes: a common type only where all elements have it, then a count, then the elements with or without their markers, and the closing bracket only without a count. |
| UbjsonLaws.ObjectTable | include/json.h:6836-6880 | The same for an object, with its members in the order of their keys. |
| UbjsonLaws.ShortFloats | include/json.h:6036-6037 | 'd' is read as the double of the same sign and value, infinities and NaNs included, and leaves what is behind. |
| UbjsonLaws.Characters | include/json.h:6041-6053 | 'C' is read as a string of one byte below 0x80, and gives 113 for any other. |
| UbjsonLaws.WideIntegers | include/json.h:6011-6033 | Under each integer marker every number that it can hold is read, unsigned only under 'U'. |
| UbjsonLaws.Lengths | include/json.h:5944-5977 | A negative length of a string counts as none; otherwise that many bytes are taken, or 110 is given. |
| UbjsonLaws.NoOps | include/json.h:5633-5645 | No-ops in front of a value are skipped, |
| UbjsonLaws.NoOpsInside | include/json.h:5981-6009 | and those between a type and its count. |
| UbjsonLaws.Sizes | include/json.h:5981-6009 | Whatever number is read behind the count marker is the size. |
| UbjsonLaws.OddSizes | include/json.h:5981-6009 | A size that is no number gives 302, one below -1 gives 408, and -1 gives 112 for an array and 113 for an object. |
| UbjsonLaws.FloatSizes | include/json.h:5981-6009 | A float as a size is cut to an integer if that is from 0 up to 2^64 - 1, for every pattern. |
| UbjsonLaws.OddTypes | include/json.h:6072-6115 | An array of a given number of no-ops is empty, and a zero byte as the type is none. |
| UbjsonLaws.Rejected | include/json.h:6011-6070 | Unknown markers give 112, the end of the input 110, and a length without an integer marker 113. |
| UbjsonLaws.SizedObject | include/json.h:6117-6146 | Of several members with one key in an object with a size the first counts. |
| UbjsonLaws.PlainObjects | include/json.h:6147-6164 | In an object up to its closing bracket the last one counts. |
| UbjsonLaws.DecodeGrows | include/json.h:6011-6164 | More input changes no outcome but the errors 110 and 112, and a value leaves it behind. |
| UbjsonLaws.CutOff | include/json.h:4929-4931 | Every proper beginning of a written message is rejected, with 110 or 112. |
| UbjsonLaws.CutBehindType | include/json.h:5981-6009 | Cut off behind a type, a message gives 112. |
| UbjsonLaws.TrailingBytes | include/json.h:4934-4943 | With anything but no-ops behind it, a message is rejected strictly with 110, and accepted otherwise. |
| Ubjson.DecodeEncode | include/json.h:6734-6886 | Reading what was written without an exception, in any mode and with anything behind it, gives the value and leaves exactly what was behind, or is rejected because a written size exceeds max_size(). |
| Ubjson.RoundTrip | include/json.h:6734-6886 | A strictly read message gives the value back exactly if no written size exceeds max_size(), equal if and only if it holds no NaN. |
| Ubjson.ModesAgree | include/json.h:6734-6886 | Two modes of writing a value are read alike exactly if both or none of them have sizes that are rejected. |
| Ubjson.NoMark | include/json.h:1700-1708 | No written message starts with a byte order mark. |
| Ubjson.Writer.WriteNumberWithPrefix | include/json.h:6929-7033 | The narrowest marker and payload, or the exception for a number of 2^63 and more. |
| Ubjson.Writer.Write | include/json.h:6734-6886 | Succeeds exactly if every integer and every written size fits int64, and then appends exactly the encoding. |
| Ubjson.Reader.GetUbjsonString | include/json.h:5944-5977 | The length with its marker and the bytes refine their function. |
| Ubjson.Reader.GetSizeType | include/json.h:5981-6009 | The optional type and size; without them the current byte is the first of the contents. |
| Ubjson.Reader.GetUbjsonValue | include/json.h:6011-6070 | The object refines the decoding function for every marker. |
| Ubjson.Reader.GetUbjsonArray | include/json.h:6072-6115 | Arrays of all three forms, the payload-free ones included. |
| Ubjson.Reader.GetUbjsonObject | include/json.h:6117-6164 | Objects of all three forms. |
| Ubjson.Reader.ParseUbjson | include/json.h:4934-4943 | In strict mode only no-ops may follow the value. |
| Ubjson.WriteAndParse | include/json.h:4934-4943 | The writer followed by the reader, on objects: the value, or the exception for an excessive size. |

## Findings

Documented claims that are stronger than what the code does, each with the exact condition proved.

| claim | source | what holds instead | members |
|---|---|---|---|
| Apart from empty containers, `j == j.flatten().unflatten()` is always true. | include/json.h:16599-16602 | False for `{"0": null}`, which comes back as `[null]`, because a null place given the token "0" becomes an array (include/json.h:9089-9093). True if and only if the value is `Flatten.Restorable`: no NaN, no empty container, arrays of at most 2^31 elements, and no object with `ZeroLeads`, that is, with a key "0" and all other keys behind it in the order of the flattened paths. A key "0" beside a key such as "" or "!" does no harm. | Flatten.UnflattenFlatten, Flatten.StartsAtZeroExactly, Flatten.KeyZeroIsLost |
| `source.patch(diff(source, target)) == target` is always true. | include/json.h:16948-16952 | False for a target with a NaN, and an exception where an index on a changed path exceeds int, because indices are read with `std::stoi` (include/json.h:9022). True if and only if the target is `NoNaN` and source and target are `Indexable`. | Diff.PatchOfDiff, Diff.NaNIsLost, Diff.LongTailIsLost |
| Strings, arrays and objects of 2^32 and more cannot be converted, and any output can be parsed back. | include/json.h:15978-15991 | The writer raises no exception for such sizes: it leaves the head out (include/json.h:6627-6656), and whatever is read from the output is not the value. Restored if and only if `MsgPack.SizesFit`, for nested sizes and keys too. | MsgPack.RestoredExactly, MsgPack.EqualExactly, MsgPack.LongStringIsLost |
| In the loop over the integral digits, pow10 = 10^(n-1) <= p1 < 10^n is an invariant. | include/json.h:7795-7797 | The upper half always holds. The lower half holds at a loop head if and only if the next digit of p1 is not '0'. False for 1.01, where p1 = 10100: behind the first digit the loop goes on with pow10 = 1000 and 100 left. It holds throughout if and only if no head that the loop reaches has a digit '0' next. | Grisu.InvariantExactly, Grisu.IntegralDigits, GrisuDouble.InvariantFails |

Further behaviour of the code that the model keeps:

- Equality of an unsigned and a signed integer casts the unsigned one, so 2^64 - 1 equals -1 (include/json.h:15131-15138).
- The input adapter skips a byte order mark in binary input as well (include/json.h:1703-1707); no written message starts with one.
- A zero byte ends the input like its real end (include/json.h:3076-3080).
- The text parser and the sized binary readers keep the first of several equal keys; the readers of
  CBOR maps and UBJSON objects without a size keep the last one.
- A UBJSON size of -1 equals the marker for no size; the byte behind it then starts no value and no key.
- The table of CBOR types lists strings, arrays and objects of 23 twice (include/json.h:15861-15872); they get the short head.
- `add` at the root replaces the document, although the list of exceptions says that it cannot (include/json.h:756).
- Unescaping decodes "~1" to a slash before "~0" to a tilde, so "~01" becomes "~1"; the comment above it names the two the other way round (include/json.h:9511).

## Left out

- Patch.PatchValue, Flatten.FlattenInto, Flatten.UnflattenValue and MergePatch.MergePatchInto: the source
  changes a tree through references into it; here each step is a functional update along the path, so
  aliasing between references is not modelled.
- TextRoundTrip.RoundTrip: `strtod` is a parameter of the lexer; the theorem asks that it inverts the texts
  of finite doubles, which Grisu.Grisu2DigitGen and GrisuDouble.ReadsBack show a correctly rounding one does.
- Cbor.RoundTrip: sizes of 2^64 and more are excluded, since no `size_t` holds them.
- MsgPack.RoundTrip: the limit of 2^32 is the format's own; MsgPack.RestoredExactly shows that it is exact.
- Ubjson.RoundTrip: max_size() is taken as (2^63 - 1) / 16 for arrays and (2^63 - 1) / 80 for objects, the values of
  libstdc++ on 64-bit platforms; other libraries have others.
- Ubjson.FloatSize: converting a float beyond uint64 to a size is undefined in the source; here it is an error of its own.
- Patch.ApplyOp: `add` below a primitive parent meets an assertion in the source; here it is an error of its own.
- Grisu2 for `float` and `long double`, and the printf path for other float types: only double is modelled.
- Pretty printing, and the indent buffer: only the compact form is modelled.
- Parser callbacks and values of kind `discarded`: parsing is modelled without a callback, and an error result stands for a discarded one.
- Error messages with their texts and positions: only the numbers of the exceptions are kept.
- Stream and user-defined input and output adapters: input and output are byte sequences.
- The locale's decimal point and thousands separator: '.' and none.
- Memory exhaustion and the stack depth of recursion.
- Iterators, conversions from and to C++ types, allocators and the template traits.
- Bit operations are written with division and remainder.
- Leader election, groups, consensus and discovery: only their declarations are part of the repository, so no transition could be modelled.
- The generated message accessors, logging, timers, scripts and the configuration reader: no hard property.
