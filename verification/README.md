# Verification of Miko's own algorithms

Miko implements its arithmetic, compression, digests, codecs and protocols without libraries.  This project models
that code in Dafny and proves what it is for.  Code that works in place is modelled as methods and classes with
loops; each is proved equal to a function, and the properties are lemmas about those functions.  Where a property
holds of the code only under a condition, the lemma is an "if and only if" with that condition.

| file | models |
|---|---|
| `words.dfy` | machine words: shifts, masks, bit operations on naturals |
| `numerals.dfy`, `mword.dfy` | big integers: base-256 numerals, `MWORD`, `POWER` |
| `decimal.dfy` | numbers as text |
| `bits.dfy` | the bit cursor under the decoders |
| `prefixcode.dfy`, `canonical.dfy`, `createhuffman.dfy` | prefix-code trees, canonical codes, `CreateHuffman` |
| `codelengths.dfy`, `huffmancodes.dfy`, `decodehuffman.dfy` | what `DecodeHuffman` reads, and how it reads it |
| `contextmap.dfy`, `distance.dfy` | context maps with inverse move-to-front; distance codes |
| `brotliexamples.dfy` | descriptions of prefix codes and context maps that are read, bit by bit |
| `json.dfy`, `jsontext.dfy`, `jsonprint.dfy` | JSON as functions, and the reader and the printer as they run |
| `jsonexamples.dfy` | JSON character by character: digits, escapes, blanks, UTF-8, the grammar of numbers |
| `byteorder.dfy`, `crc.dfy`, `rng.dfy`, `mersenne.dfy`, `digest.dfy`, `sponge.dfy`, `base64.dfy` | cryptographic plumbing |
| `crcchecks.dfy`, `mersenneexamples.dfy` | check values of two CRC rows; the first words of the Mersenne twister |
| `lock.dfy`, `websocket.dfy`, `build.dfy` | reentrant lock, WebSocket frames and messages, build order |

Conventions.  Words are natural numbers; a truncation is written as a remainder.  A stop of the original
(`Memory::violation`, an exception, a dereferenced null pointer, a read outside a string) is the result `Failed`,
`None`, `Closed` or `ok == false`.  Methods that change objects state their whole new state through an abstract
value: `Nat()` of a big integer, `Unread()` of a bit reader, `Message()` of a digest, `ShapeAt(at)` of a tree whose
nodes a ghost map `at` lists by path.  The functions that the methods are proved equal to are tied down by lemmas that
do not name them (bit by bit, in order, as a tiling of the numbers) and by the examples of the standards: RFC 6455
section 5.7, RFC 4648 section 10, the check values of CRC-32 and CRC-16/CCITT, the reference output of mt19937-64.

Where the code does less than its purpose suggests; the exact conditions are in the table:

- `MWORD` `-=` wraps unless the difference fits in the bytes of the subtrahend, and `>>=` by 8 or more leaves stale
  top bytes; division only uses both where they are exact.
- CRC row 18 (XMODEM2, even polynomial) misses bursts that every other row detects; the bytes 0x43, 0x20 and two zero
  bytes have the same value.
- The 128-bit length field of the long digests has its upper half always zero.
- The JSON reader refuses a number whose exponent comes without any sign or point (`1e5`), and the escape `\/`.
- A simple prefix code is not sorted, so it is the canonical code of section 3.2 of RFC 7932 only when its symbols of
  equal length already rise.  It can also name symbols outside the alphabet: in a context map these stand for trees
  that are not there, and a distance of theirs can wrap.
- The second loop of `DecodeHuffman` has no check at its end: the tree is usable exactly when `space` ended at zero
  or there is one symbol.
- `stringify(QWORD, true)` prints the most negative number as `-0`; the JSON reader takes every negative number as
  FLOAT; the JSON printer returns the whole buffer once it has grown, and writes behind it for some texts of less
  than four bytes; bytes from 0x80 on are not read back as they were printed.
- An even non-zero `MSK` writes a frame that is read four bytes short; control frames are never recognised.
- The lock frees itself when a nesting deeper than 2^32 is released down to 2^32, and a second thread gets in.

## Model

| member | source | states |
|---|---|---|
| BigNumbers.MWord.AddAssign | String/src/MWORD.cpp:50-66 | the value afterwards is the sum, also for `a += a` |
| BigNumbers.MWord.SubAssign | String/src/MWORD.cpp:68-84 | the value afterwards is the two's-complement result that SubtractExact characterises, also for `a -= a` |
| BigNumbers.SubtractExact | String/src/MWORD.cpp:68-84 | that result is the difference if and only if the subtrahend is 0, or is not larger and the difference fits in its bytes |
| BigNumbers.MWord.MulAssign | String/src/MWORD.cpp:86-108 | the value afterwards is the exact product, every write inside the buffer, also for `a *= a` |
| Numerals.SchoolbookProduct | String/src/MWORD.cpp:86-108 | the rows that the loops add up make the product |
| BigNumbers.MWord.ShiftLeftAssign | String/src/MWORD.cpp:124-140 | the value afterwards is multiplied by the power of two |
| BigNumbers.MWord.ShiftRightAssign | String/src/MWORD.cpp:142-153 | the value afterwards, stale top bytes included; fails where the shift passes the length |
| BigNumbers.ShiftRightExact | String/src/MWORD.cpp:142-153 | right shift divides by the power of two if and only if the shift is below 8 |
| BigNumbers.MWord.Less | String/src/MWORD.cpp:200-214 | the byte comparison orders the values |
| BigNumbers.MWord.Greater | String/src/MWORD.cpp:216-230 | the byte comparison orders the values |
| BigNumbers.MWord.GreaterEqual | String/src/MWORD.cpp:232-246 | the byte comparison orders the values |
| BigNumbers.MWord.ToWord | String/src/MWORD.cpp:253-263 | the value modulo 2^64 |
| BigNumbers.MWord.Width | String/src/MWORD.cpp:291-298 | the bit length of the value |
| BigNumbers.NumberSize | String/src/BinaryStorage.c:3-12 | counts the bits of a word |
| BigNumbers.MWord.Division | String/src/MWORD.cpp:325-348 | quotient and remainder for every dividend and divisor, aliased as `/=` and `%=` do; for divisor 0 what the loop leaves |
| BigNumbers.DivisionStep | String/src/MWORD.cpp:335-346 | one round keeps n = q*d + rem, divisor = d*res and rem < 2*divisor, and its `-=` is exact |
| BigNumbers.DivisionEnd | String/src/MWORD.cpp:335-346 | the invariant at the end of the loop gives quotient and remainder |
| BigNumbers.RaiseTo | String/src/MWORD.cpp:350-363 | square-and-multiply computes the power |
| BigNumbers.PowerSquare | String/src/MWORD.cpp:350-363 | squaring the base halves the exponent |
| Decimals.Stringify | String/src/sstring.cpp:371-399 | the decimal digits, or the signed text, of every 64-bit word, through the zeroed buffer |
| Decimals.ParseInteger | String/src/sstring.cpp:560-584 | the number modulo 2^64 that the digits stand for, negated after a minus sign; stops on other characters |
| Decimals.NumberOfDigits | String/src/sstring.cpp:371-399 | the digits of a number are digits and stand for it |
| Decimals.ScanFloat | String/src/sstring.cpp:416-559 | the cursor of the floating-point parser gets to the end exactly on sign, NaN, Infinity, or digits with fraction and exponent |
| JsonExamples.FloatReads | String/src/sstring.cpp:416-559 | optional sign, digits, fraction and exponent, each of which may be empty, make the text of a number |
| JsonExamples.FloatOnly | String/src/sstring.cpp:416-559 | and nothing else does, but NaN and Infinity |
| JsonExamples.NoLeadingZero | String/src/sstring.cpp:371-399 | numbers are printed without leading zeros |
| Decimals.RoundTripExactly | String/src/sstring.cpp:371-399 | a word is read back from its signed text if and only if it is not 2^63 |
| BitStreams.NibbleReader.Read | Compression/src/NibbleReader.cpp:6-28 | up to 64 bits, first bit least significant, exactly when they are there; otherwise nothing moves |
| BitStreams.NibbleReader.Boundary | Compression/src/NibbleReader.cpp:29-40 | the rest of the byte, and the cursor on the next one |
| BitStreams.NibbleReader.Seek | Compression/src/NibbleReader.cpp:41-48 | moves exactly to positions inside the stream |
| BitStreams.NibbleReader.Skip | Compression/src/NibbleReader.cpp:49-56 | advances by the length if and only if that many bits are left; an overlong skip may wrap backwards |
| BitStreams.NumberInjective | Compression/src/NibbleReader.cpp:10-25 | a field of a given width is determined by its number |
| BitStreams.WholeByte | Compression/src/NibbleReader.cpp:10-25 | eight bits from a byte boundary on are that byte |
| BitStreams.NumberConcat | Compression/src/NibbleReader.cpp:10-25 | of bits read in one go the first are the lowest |
| PrefixCodes.ShapeDomain | Compression/src/Brotli.cpp:219-240 | the nodes of a tree are exactly the prefixes of the words inserted |
| PrefixCodes.WalkFinds | Compression/src/Brotli.cpp:143-149 | with prefix-free words, decoding a word followed by anything stops at its end with its value |
| PrefixCodes.StopIsEntry | Compression/src/Brotli.cpp:143-149 | whatever decodes is a word of the code at the front of the input |
| PrefixCodes.FullWalk | Compression/src/Brotli.cpp:143-149 | a full tree never meets a missing child |
| PrefixCodes.Huffman.Decode | Compression/src/Brotli.cpp:143-149 | the recursive walk over the nodes reads what the walk over the shape says, bit by bit |
| HuffmanTrees.InsertWord | Compression/src/Brotli.cpp:224-238 | the path of one word is added to the node tree, nothing else changes |
| HuffmanTrees.CreateHuffman | Compression/src/Brotli.cpp:196-243 | counting, 16-bit numbering and insertion build exactly the tree of the canonical code book; a lone symbol is a leaf |
| HuffmanTrees.CodeWraps | Compression/src/Brotli.cpp:214-217 | keeping code numbers in 16 bits does not change the words |
| CanonicalCodes.KraftIsSum | Compression/src/Brotli.cpp:448-479 | the Kraft sum by symbol equals the space by length |
| CanonicalCodes.WordContains | Compression/src/Brotli.cpp:213-222 | each word covers exactly the space after the words before it in canonical order |
| CanonicalCodes.WordsApart | Compression/src/Brotli.cpp:213-222 | within the Kraft bound no word is the beginning of another |
| CanonicalCodes.DecodesSymbol | Compression/src/Brotli.cpp:196-243 | within the bound, a symbol's word followed by anything decodes to the symbol and consumes its length |
| CanonicalCodes.DecodesLone | Compression/src/Brotli.cpp:209-212 | a lone symbol is decoded without reading a bit |
| CanonicalCodes.FullExactly | Compression/src/Brotli.cpp:196-243 | within the Kraft bound, the tree has no missing child if and only if the Kraft sum is exactly 1 |
| CanonicalCodes.DecodesExactly | Compression/src/Brotli.cpp:196-243 | every symbol is decoded from its own word if and only if the Kraft sum is at most 1 |
| CodeLengths.FixedNumbers | Compression/src/Brotli.cpp:414-424 | the hand-built static tree is the canonical code of the lengths 2, 4, 3, 2, 2, 4 |
| CodeLengths.SymbolExactly | Compression/src/Brotli.cpp:143-149 | with usable lengths a symbol is read from its word and from nothing else |
| CodeLengths.FieldExactly | Compression/src/NibbleReader.cpp:6-28 | a field is read from the bits of its value and from nothing else |
| CodeLengths.AcceptedExactly | Compression/src/Brotli.cpp:425-443 | the check after the first loop passes if and only if the code length code is a lone symbol or exactly full |
| CodeLengths.AssignedInOrder | Compression/src/Brotli.cpp:22 | whose length comes when: symbols 1 to 4 take the first to fourth counted from HSKIP, then come 0, 5, 17, 6, 16 and 7 to 15; zero where none was read |
| CodeLengths.ChainFor | Compression/src/Brotli.cpp:460-481 | every repetition count from 3 on is spelled by a chain of repetitions |
| CodeLengths.ChainUnique | Compression/src/Brotli.cpp:460-481 | and by one only: its extra bits are the digits of the count |
| CodeLengths.ExpandStep | Compression/src/Brotli.cpp:460-481 | token by token, a repetition adds the growth of its chain, at least 3 lengths, so that a chain expands to its nested count |
| CodeLengths.LeftExactly | Compression/src/Brotli.cpp:448-479 | the 32-bit `space` is budget minus Kraft weight and zero exactly when all is used, for alphabets below 2^18 |
| CodeLengths.FinalKraft | Compression/src/Brotli.cpp:446-484 | the Kraft sum of the final lengths is what `space` lost; they are full exactly when it ends at zero |
| HuffmanCodes.DescribeExactly | Compression/src/Brotli.cpp:272-486 | a description of a prefix code is read from its spelling and from nothing else, the rest is left |
| HuffmanCodes.SpentExactly | Compression/src/Brotli.cpp:446-484 | for two symbols or more, the tree is full and decodes every symbol if and only if `space` ends at zero |
| HuffmanCodes.SimpleNumbers | Compression/src/Brotli.cpp:290-359 | the trees of simple codes are the canonical codes of their lengths, position by position |
| HuffmanCodes.AlphabetBitsExactly | Compression/src/Brotli.cpp:277-284 | the width of a symbol is the smallest with alphabet size <= 2^width |
| HuffmanCodes.SimpleExactly | Compression/src/Brotli.cpp:290-359 | a simple tree reads a symbol from the word of its place and from nothing else |
| HuffmanCodes.SimpleInOrderExactly | Compression/src/Brotli.cpp:287-359 | a simple code is in canonical order if and only if its symbols of equal length rise |
| HuffmanCodes.CreatedInOrder | Compression/src/Brotli.cpp:213-240 | the codes of CreateHuffman are in canonical order |
| HuffmanDecoder.FixedTree | Compression/src/Brotli.cpp:414-424 | the static tree `symbols` |
| HuffmanDecoder.ReadLengthCode | Compression/src/Brotli.cpp:425-443 | the first loop and its check read the lengths of the code length code, in 32-bit `space`, and store each under its symbol, zero where none was read |
| HuffmanDecoder.StoreToken | Compression/src/Brotli.cpp:452-482 | one turn of the second loop stores what the token expands to; progress is at least 1, for repetitions at least 3; an overrun stops |
| HuffmanDecoder.ReadCodeLengths | Compression/src/Brotli.cpp:446-482 | the second loop ends and leaves the expanded lengths |
| HuffmanDecoder.DecodeHuffman | Compression/src/Brotli.cpp:272-486 | succeeds exactly on descriptions, consumes exactly the spelling and builds the tree of the described code |
| BrotliExamples.ReadsFive | Compression/src/Brotli.cpp:272-486 | a complex description with a run of zeros, bit by bit: the lengths 1, 0, 0, 0, 1 |
| BrotliExamples.ReadsSixteen | Compression/src/Brotli.cpp:272-486 | a complex description with chained repetitions of a length: all sixteen lengths are 4 |
| BrotliExamples.SimpleTrees | Compression/src/Brotli.cpp:290-359 | the words of all simple trees |
| BrotliExamples.ReadsFour | Compression/src/Brotli.cpp:272-359 | a simple description of four symbols, bit by bit |
| ContextMaps.IMTF | Compression/src/Brotli.cpp:152-170 | in-place inverse move-to-front |
| ContextMaps.FrontKeeps | Compression/src/Brotli.cpp:160-167 | the queue stays a permutation |
| ContextMaps.TransformsInvert | Compression/src/Brotli.cpp:152-170 | `IMTF` and move-to-front undo each other on every sequence |
| ContextMaps.InverseUndoes | Compression/src/Brotli.cpp:152-170 | the inverse undoes move-to-front from any queue that is a permutation |
| ContextMaps.InverseBelow | Compression/src/Brotli.cpp:152-170 | indices below n give values below n |
| ContextMaps.ItemsExactly | Compression/src/Brotli.cpp:497-514 | the cells of a map are read from a spelling of them and from nothing else, the rest is left |
| ContextMaps.RunLengthsTile | Compression/src/Brotli.cpp:506 | every number of zeros has exactly one code and extra bits: code is its bit length less one, extra what is left above 2^code |
| ContextMaps.CellOfSymbol | Compression/src/Brotli.cpp:499-503 | a symbol above RELMAX is a tree number less RELMAX, cut to a byte |
| ContextMaps.ZerosOfSymbol | Compression/src/Brotli.cpp:504-513 | any other symbol takes as many extra bits as it says and is 2^symbol + extra zeros |
| ContextMaps.StoreItem | Compression/src/Brotli.cpp:499-514 | a code above RELMAX stores one cell, a run stores 2^code + extra zeros, where they fit |
| ContextMaps.RunMaxExactly | Compression/src/Brotli.cpp:492-494 | RELMAX is 0, or one more than the four bits behind a one |
| ContextMaps.MapInRangeExactly | Compression/src/Brotli.cpp:487-525 | all maps that a described code can write name trees only, if and only if the map is empty, the code is complex, or each symbol of the simple code is a run or names a tree once it is cut to a byte |
| ContextMaps.MapInRange | Compression/src/Brotli.cpp:487-525 | under that condition the map that is read is filled exactly and every entry is the number of a tree |
| BrotliExamples.FourthOfThree | Compression/src/Brotli.cpp:487-525 | eight bits that are read, for three trees, as a map whose entry is tree number 3 |
| ContextMaps.DecodeContextMap | Compression/src/Brotli.cpp:487-525 | the fill loop and the transform compute the map of the bits, and succeed exactly when it exists |
| BrotliExamples.ReadsMap | Compression/src/Brotli.cpp:487-525 | a map with a run that has an extra bit, and with the transform, bit by bit |
| DistanceCodes.DistancesTile | Compression/src/Brotli.cpp:701-713 | for every NPOSTFIX and NDIRECT, codes from 16 on with their extra bits are one-to-one with the distances 1, 2, 3, ... |
| DistanceCodes.DistanceOfCode | Compression/src/Brotli.cpp:701-713 | every distance has a code, and the code gives it back |
| DistanceCodes.DirectInOrder | Compression/src/Brotli.cpp:701-703 | the direct codes are the distances 1, 2, 3, ... in order |
| DistanceCodes.FirstLong | Compression/src/Brotli.cpp:704-713 | the first 2^NPOSTFIX codes behind them have one extra bit, and the next distances |
| DistanceCodes.ExtraInOrder | Compression/src/Brotli.cpp:704-713 | one more in the extra bits is 2^NPOSTFIX more in the distance |
| DistanceCodes.CodesInOrder | Compression/src/Brotli.cpp:704-713 | the code 2^NPOSTFIX further goes on where the extra bits of this one end; every second step adds an extra bit |
| DistanceCodes.AlphabetExactly | Compression/src/Brotli.cpp:704-713 | the alphabet ends with the codes of 24 extra bits |
| DistanceCodes.DecodeDistance | Compression/src/Brotli.cpp:701-713 | for every code from 16 on, the distance modulo 2^32; for all codes of the alphabet nothing wraps and the code can be recovered |
| DistanceCodes.RecoveredExactly | Compression/src/Brotli.cpp:701-713 | a code and its extra bits can be recovered from the 32-bit distance if and only if it did not wrap |
| DistanceCodes.BeyondWraps | Compression/src/Brotli.cpp:701-713 | a symbol beyond the alphabet, of a width that a simple code can spell, whose distance wraps |
| Json.RoundTrip | JSON/src/JSON.cpp:164-281 | every printable value is read back from its text, which is consumed exactly |
| Json.IntTripExactly | JSON/src/JSON.cpp:242-276 | an integer comes back as itself if and only if it is below 2^63 |
| Json.Utf8Decodes | JSON/src/JSON.cpp:145-158 | the UTF-8 bytes of a code point stand for it |
| JsonExamples.Utf8Shape | JSON/src/JSON.cpp:145-158 | one byte up to 0x7F, two up to 0x7FF, else three, each with its mark |
| JsonExamples.HexDigitExactly | JSON/src/JSON.cpp:116-135 | the hexadecimal digits in both cases, and no others |
| JsonExamples.EscapeIs | JSON/src/JSON.cpp:78-112 | the eight one-letter escapes |
| JsonExamples.UnicodeIs | JSON/src/JSON.cpp:113-138 | `u` and four digits, the most significant first |
| JsonExamples.EscapeFails | JSON/src/JSON.cpp:78-143 | no other letter may follow a backslash |
| JsonExamples.SkipExactly | JSON/src/JSON.cpp:49-52 | blanks are skipped and nothing else |
| JsonExamples.SpacedArray | JSON/src/JSON.cpp:204-235 | blanks between the brackets, values and commas do not change an array |
| JsonExamples.EmptyIsNull | JSON/src/JSON.cpp:164-175 | a text of blanks is null |
| JsonExamples.TrailingCommaFails | JSON/src/JSON.cpp:204-276 | a comma must be followed by a value |
| JsonExamples.DuplicateName | JSON/src/JSON.cpp:176-206 | of two members with one name the second gives the value |
| JsonExamples.PlainExactly | JSON/src/JSON.cpp:282-317 | the strings that come back as they are printed without any escape are those that are printed as they are and below 0x80 |
| JsonExamples.NumberExactly | JSON/src/JSON.cpp:242-276 | a token that is no word and not all digits is read if and only if it is the text of a number with a character below the digits, or that begins behind them |
| JsonExamples.PlainExponentFails | JSON/src/JSON.cpp:242-276 | so 1e5 is refused |
| JsonText.Whitespace | JSON/src/JSON.cpp:49-52 | skips blanks, to which bytes from 0x80 on belong |
| JsonText.EncodeUtf8 | JSON/src/JSON.cpp:145-158 | the encoder computes the UTF-8 bytes |
| JsonText.ReadEscapeString | JSON/src/JSON.cpp:53-163 | the string loop reads escapes and re-encodes bytes |
| JsonText.Store | JSON/src/object.cpp:141-183 | insert-or-find by key, then assignment |
| JsonText.StoreFinds | JSON/src/object.cpp:141-183 | keys stay distinct, the entry is there, the others are unchanged |
| JsonText.ReadValue | JSON/src/JSON.cpp:164-281 | the recursive reader with one cursor computes the reading function, error cases included: brackets, strings, words, integers and texts of numbers |
| JsonText.Resolve | JSON/src/JSON.cpp:322-326 | the value at the front of the text, or the failure |
| JsonPrinting.QuoteText | JSON/src/JSON.cpp:282-317 | the buffer returned, its size after doubling included, begins with the escaped text; fails where a write passes the buffer |
| JsonPrinting.QuoteExactly | JSON/src/JSON.cpp:282-317 | for every string of n bytes: the writes stay inside the buffer exactly when no control character overruns it, always for n >= 4; then the text has the right length if and only if it grew by 0, n + 2 or 3 * (n + 2) bytes |
| JsonPrinting.QuoteNoControls | JSON/src/JSON.cpp:282-317 | without control characters, if and only if nothing was escaped |
| JsonPrinting.EscapedReads | JSON/src/JSON.cpp:53-163 | the escaped text of bytes is read back as the bytes if and only if they are below 0x80 |
| JsonExamples.EscapeLetterIs | JSON/src/JSON.cpp:5-22 | the printer escapes with the letters the reader takes, except for the apostrophe |
| JsonPrinting.StrTripExactly | JSON/src/JSON.cpp:282-326 | the same for a string as it is printed, whatever stands in the rest of the buffer |
| JsonPrinting.Stringify | JSON/src/object.cpp:316-373 | succeeds exactly on values without FLOAT whose strings fit, and prints one of the texts of the value, item by item |
| JsonPrinting.PrintedReads | JSON/src/JSON.cpp:318-326 | every printable value can be printed, and its text is resolved to the value and to its end |
| CyclicRedundancy.CRC.Update | Cryptography/src/CRC.cpp:55-72 | the register afterwards is the old one run over the message bits, reflected as the row says |
| CyclicRedundancy.CRC.Value | Cryptography/src/CRC.cpp:73-88 | the register bit by bit, from the other end if REFO is set, complemented where XORO has a one |
| CyclicRedundancy.EmptyMessage | Cryptography/src/CRC.cpp:11-88 | rows that start with ones and complement the result give the empty message zeros |
| CheckValues.Row20 | Cryptography/src/CRC.cpp:11-88 | CRC-32 of the characters 123456789 is 0xCBF43926 |
| CheckValues.Row15 | Cryptography/src/CRC.cpp:11-88 | the unreflected 16-bit row gives them 0x29B1 |
| CheckValues.SumOfNine | Cryptography/src/CRC.cpp:52-88 | the object of row 20, updated with them, returns 0xCBF43926 |
| CyclicRedundancy.Ref | Cryptography/src/CRC.cpp:41-51 | the byte with its bits reversed |
| CyclicRedundancy.RunIsLongDivision | Cryptography/src/CRC.cpp:55-72 | the bit-serial register is the remainder of polynomial long division over GF(2) |
| CyclicRedundancy.RunAffine | Cryptography/src/CRC.cpp:55-72 | registers and messages add |
| CyclicRedundancy.DetectsBurstsExactly | Cryptography/src/CRC.cpp:55-72 | all bursts up to the width are detected if and only if the generator is odd |
| CyclicRedundancy.RowDetectsBursts | Cryptography/src/CRC.cpp:11-39 | of the 27 rows exactly XMODEM2 fails to detect them |
| CyclicRedundancy.BurstChangesValue | Cryptography/src/CRC.cpp:55-88 | for every other row, messages of bytes that differ inside such a burst have different values |
| CyclicRedundancy.Row18Misses | Cryptography/src/CRC.cpp:55-88 | for row 18 the messages 0x43, 0x20 and 0, 0 have the same value |
| CyclicRedundancy.RowShowsBurstsExactly | Cryptography/src/CRC.cpp:11-88 | the values of all messages of bytes that differ inside such a burst differ if and only if the row is not 18 |
| RandomScaling.CarryStep | Cryptography/src/RNG.cpp:17-25 | one carry-save turn keeps the 128-bit sum |
| RandomScaling.CarryTrailing | Cryptography/src/RNG.cpp:17-25 | each turn gives the carry one more trailing zero |
| RandomScaling.AddCarrySave | Cryptography/src/RNG.cpp:15-26 | the inner loop ends and adds modulo nothing: the pair is the exact sum |
| RandomScaling.Scale | Cryptography/src/RNG.cpp:4-34 | floor(word * max / 2^64), hence below max |
| Mersenne.MersenneTwister.Seed | Cryptography/src/MersenneTwister.cpp:3-11 | the array holds the first 312 elements of the recurrence |
| Mersenne.MersenneTwister.Twist | Cryptography/src/MersenneTwister.cpp:12-22 | the in-place loop moves the window of the recurrence by 312 |
| Mersenne.MersenneTwister.Random | Cryptography/src/MersenneTwister.cpp:23-41 | the next element, tempered |
| Mersenne.OutputsOf | Cryptography/src/MersenneTwister.cpp:3-41 | draw k after a seed is the tempered element 312 + k of the pure recurrence, for any number of draws |
| Mersenne.Outputs | Cryptography/src/MersenneTwister.cpp:3-41 | the same for the 64-bit words and functions of the original |
| MersenneExamples.DrawThree | Cryptography/src/MersenneTwister.cpp:3-41 | the first three words drawn after seed 5489 are those of the reference implementation |
| Mersenne.RandomBelow | Cryptography/src/MersenneTwister.cpp:42-45 | a draw below a bound is the scaled next element |
| Digests.MessageDigest.Update | Cryptography/src/MessageDigest.cpp:8-26 | the message grows by the data, whatever the split |
| Digests.MessageDigest.Finally | Cryptography/src/MessageDigest.cpp:27-42 | the digest of the message, the object unchanged |
| Digests.PadAndFold | Cryptography/src/MessageDigest.cpp:29-39 | the padding loop runs twice if the length field does not fit and once if it does, and folds the padded blocks |
| Digests.FinalBlocksArePadding | Cryptography/src/CommonMessageDigest.cpp:3-32 | the one or two last blocks are 0x80, the fewest zeros, and the bit length |
| Digests.LongLengthExact | Cryptography/src/CommonMessageDigest.cpp:17-32 | the 128-bit length field is right if and only if the message is shorter than 2^64 bits |
| Digests.LengthFieldAt | Cryptography/src/CommonMessageDigest.cpp:3-32 | byte i of the length, counted from its lowest, stands first or last as the family says; the upper half of the long field is zero |
| Digests.FoldBlocks | Cryptography/src/MessageDigest.cpp:8-26 | the blocks are taken from the first to the last, starting with the initial value |
| Digests.PaddedAbc | Cryptography/src/MessageDigest.cpp:27-42 | the one block of the message abc, byte by byte, for both byte orders |
| Digests.DigestOf | Cryptography/src/MessageDigest.cpp:8-42 | for every chunking, the fold over the padded message |
| Sponges.Keccak.Update | Cryptography/src/SHA3.cpp:84-105 | the message grows by the data, the capacity bytes of the block stay zero |
| Sponges.CombineTwice | Cryptography/src/SHA3.cpp:57-65 | adding a block twice takes it back |
| Sponges.CombineBits | Cryptography/src/SHA3.cpp:57-65 | a bit of the state is one afterwards exactly where state and block differ |
| Sponges.CombineCapacity | Cryptography/src/SHA3.cpp:57-65 | a block does not reach the capacity of the state |
| Sponges.AbsorbAdds | Cryptography/src/SHA3.cpp:84-105 | absorbing one more block: its bits are added to the first `rate` bytes, the rest is as it was, then comes the permutation |
| Sponges.SealedShort | Cryptography/src/SHA3.cpp:66-119 | the one block of a short message, byte by byte, with domain byte and 0x80 |
| Sponges.SealedTail | Cryptography/src/SHA3.cpp:66-119 | the last incomplete block of a longer message is sealed like a message of its own and added to the state |
| Sponges.FinallySHA3 | Cryptography/src/SHA3.cpp:106-119 | the first bytes of the sealed state |
| Sponges.FinallySHAKE | Cryptography/src/SHAKE.cpp:41-71 | output byte i is byte i mod rate of the permutation iterated i / rate times, the last byte masked |
| Sponges.SHAKEOf | Cryptography/src/SHAKE.cpp:19-71 | for every chunking, the output of the whole message |
| Sponges.SHA3Of | Cryptography/src/SHA3.cpp:84-119 | for every chunking, the hash of the whole message |
| Sponges.OutputPrefix | Cryptography/src/SHAKE.cpp:41-71 | a shorter whole-byte output is a prefix of a longer one |
| Sponges.StreamStarts | Cryptography/src/SHAKE.cpp:41-71 | the output is the rate of the state, then the output of the permuted state |
| Sponges.OutputLast | Cryptography/src/SHAKE.cpp:41-71 | of a last partial byte the low bits are kept |
| Base64.Encode | Cryptography/src/BASE64.cpp:83-136 | the bit-position loop fills exactly the computed length with the encoding |
| Base64.Decode | Cryptography/src/BASE64.cpp:137-212 | the four-state machine computes the decoding, or stops on a foreign character or length |
| Base64.DecodeEncode | Cryptography/src/BASE64.cpp:83-212 | what was encoded decodes to itself, for every byte string |
| Base64.EncodeDecodeExactly | Cryptography/src/BASE64.cpp:137-212 | an accepted text is the encoding of its decoding if and only if its unused bits are zero |
| Base64.AcceptedExactly | Cryptography/src/BASE64.cpp:137-212 | a text is accepted if and only if it is characters of the alphabet and at most two of padding, in fours |
| Base64.AlphabetIs | Cryptography/src/BASE64.cpp:72-81 | the alphabet in order |
| Base64.EncodingConcat | Cryptography/src/BASE64.cpp:83-136 | groups of three octets are encoded on their own |
| Base64.EncodeThree | Cryptography/src/BASE64.cpp:83-136 | three octets are four characters |
| Base64.Foobar | Cryptography/src/BASE64.cpp:83-136 | foobar is encoded as Zm9vYmFy |
| ReentrantLocks.StepInv | Concurrency/src/ReentrantLock.cpp:11-44 | every memory access of every thread keeps the invariant, but for the clearing of a word that is still held |
| ReentrantLocks.LockSafety | Concurrency/src/ReentrantLock.cpp:11-44 | over all runs of any threads in which no held word is cleared: at most one holds the lock, the depth is its count modulo 2^32, and the word is zero exactly when all is released and quiet |
| ReentrantLocks.SafeExactly | Concurrency/src/ReentrantLock.cpp:11-44 | every state of a run is safe if and only if no step clears the word at a positive multiple of 2^32 |
| ReentrantLocks.SafeForCallersExactly | Concurrency/src/ReentrantLock.cpp:11-44 | of runs whose calls have returned: if and only if no release brings a count down to a positive multiple of 2^32 |
| ReentrantLocks.NestRun | Concurrency/src/ReentrantLock.cpp:11-21 | every nesting depth is reached by a run, the depth in the word being the count modulo 2^32 |
| ReentrantLocks.ForeignRelease | Concurrency/src/ReentrantLock.cpp:31-37 | a release by another thread changes nothing |
| ReentrantLocks.TooDeep | Concurrency/src/ReentrantLock.cpp:11-44 | from every start there is a run at whose end two threads hold the lock, one of them 2^32 deep |
| ReentrantLocks.TryAlone | Concurrency/src/ReentrantLock.cpp:11-21 | undisturbed, an attempt succeeds exactly on a free word or on one's own |
| ReentrantLocks.ReleaseAlone | Concurrency/src/ReentrantLock.cpp:31-44 | undisturbed, a release by the owner lowers the depth and frees the word at zero |
| ReentrantLocks.ReleaseUndoesTry | Concurrency/src/ReentrantLock.cpp:11-44 | a release undoes an acquisition |
| ReentrantLocks.ReentrantLock.Try | Concurrency/src/ReentrantLock.cpp:11-21 | the word and result of an undisturbed attempt |
| ReentrantLocks.ReentrantLock.Release | Concurrency/src/ReentrantLock.cpp:31-44 | the word and result of an undisturbed release |
| WebSockets.ReadFully | Streaming/src/fully.cpp:6-17 | short reads of any size add up to exactly the bytes wanted |
| WebSockets.WriteFully | Streaming/src/fully.cpp:26-37 | short writes of any size send everything once and in order |
| WebSockets.WebSocket.ReadFrame | CWS/src/WebSocket.cpp:54-99 | reads the frame at the front of the stream and leaves the rest |
| WebSockets.WebSocket.WriteFrame | CWS/src/WebSocket.cpp:100-154 | sends exactly the bytes of the frame, nothing on a closed socket |
| WebSockets.MaskedAt | CWS/src/WebSocket.cpp:93-96 | each bit of the payload is combined with a bit of the key byte whose turn it is |
| WebSockets.MaskedConcat | CWS/src/WebSocket.cpp:148-151 | from every fourth byte on the key starts again |
| WebSockets.ReadsMaskedHello | CWS/src/WebSocket.cpp:54-99 | the masked frame of section 5.7 of RFC 6455 is read as Hello |
| WebSockets.ReadsFragments | CWS/src/WebSocket.cpp:155-189 | its two fragments are received as Hello |
| WebSockets.ReadsLong | CWS/src/WebSocket.cpp:54-99 | its frames of 256 and 65536 bytes |
| WebSockets.WritesHello | CWS/src/WebSocket.cpp:100-154 | the bare and the masked frame as they are written |
| WebSockets.LengthShortest | CWS/src/WebSocket.cpp:100-154 | the length takes as few bytes as it can |
| WebSockets.WebSocket.Send | CWS/src/WebSocket.cpp:190-194 | sends the frame, and nothing more after a close frame |
| WebSockets.IntactExactly | CWS/src/WebSocket.cpp:54-154 | a written frame is read back with fields, payload and rest if and only if it is shorter than 2^32 and MSK is 0 or odd |
| WebSockets.WebSocket.Receive | CWS/src/WebSocket.cpp:155-189 | collects frames up to the first with FIN |
| WebSockets.ReceiveWhole | CWS/src/WebSocket.cpp:155-189 | a message cut into frames arrives whole, with the first frame's opcode and reserved bits |
| WebSockets.ReceiveExactly | CWS/src/WebSocket.cpp:155-189 | with control frames allowed in between, a message is received to its end if and only if there are none |
| WebSockets.SendableExactly | CWS/src/WebSocket.cpp:54-154 | the frames these two speak of are those that are read back whole |
| WebSockets.ControlBit | CWS/src/WebSocket.cpp:155-189 | control frames are those with the highest of the four bits of the opcode |
| WebSockets.ControlNeverSeen | CWS/src/WebSocket.cpp:165-174 | the test for control frames is never true of a four-bit opcode |
| BuildDriver.Find | compile/src/compiler.cpp:186-199 | the first project of the name, or none |
| BuildDriver.Driver.Compile | compile/src/compiler.cpp:308-344 | succeeds exactly if the project can be built; dependencies come first |
| BuildDriver.Driver.Depend | compile/src/compiler.cpp:345-370 | succeeds exactly if all dependencies are found and built |
| BuildDriver.Driver.Build | compile/src/compiler.cpp:624-630 | success if and only if every project can be built, and then all are |
| BuildDriver.CommandsOnce | compile/src/compiler.cpp:308-344 | no command is given twice |
| BuildDriver.CommandsExactly | compile/src/compiler.cpp:308-344 | the commands are those of the projects with sources |

## Left out

- Inside of the compression functions and of the Keccak permutation: parameters of the digest and sponge modules.
- CRC check values: computed for the rows 15 and 20 only.
- BigNumbers.MWord.ShiftRightAssign: a shift past the length is a failure; the original's loop bound wraps there.
- Decimal text of big integers (`MWORD::string`): its buffer is sized by a floating-point logarithm.
- Floating-point numbers: which texts are accepted is modelled, their values are not; a FLOAT of JSON is kept as its token, and printing one is a failure.
- JSON objects as heap nodes: `content` lists are values, so aliasing, `readonly` and the references that `operator[]` hands out are not modelled; the array index form is the append that `resolve` uses.
- JSON `Capacity` in `ReadEscapeString`: the growing buffer is a sequence, since it never runs short there.
- Prefix trees written as node literals (the static tree and the simple codes) are built by inserting their words.
- Brotli beyond prefix codes, context maps and distances: the meta-block loop, ring of last distances, static dictionary and its transforms, block types other than one.
- DistanceCodes.DecodeDistance: a shift of a 32-bit word by 32 or more, which the language leaves open, is a failure.
- BitStreams.NibbleReader.Read: a field of zero bits is 0; the original shifts by 64 there, which the language leaves open.
- Stream lengths of 2^61 bytes and more, where bit positions would wrap.
- WebSockets.WebSocket.ReadFrame: a frame that announces 2^32 bytes or more is a failure; the original fills part of the buffer.
- WebSockets.ReadFully: a closed peer is a failure; the original would ask again for ever.
- WebSocket opening handshake, URL handling and the socket itself.
- ReentrantLocks.LockSafety: memory is sequentially consistent, each load, store and compare-exchange is one step, and `operator++` is a repeated `operator+`.
- BuildDriver.Driver.Compile: dependencies must not form a cycle, on which the original would not return; commands succeed or fail as a parameter says; paths, options and configuration files are not modelled.
