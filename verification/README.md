# Verified models of the repository's algorithmic cores

The repository is a collection of small C++ libraries. This project models the ones that hold
real algorithms and proves what they are for, on all the inputs they are for:

- **JSON** (`Json*.dfy`): values with their order, the recursive descent reader with its node
  stack, error list and recovery, and both printers. Parsing either printer's output gives the
  value's normal form and succeeds, except that a strict reader refuses scalar roots; the exact set
  of values that come back equal is stated. Both printers emit the same tokens: the compact text is
  those tokens back to back, the indented text is a list of lines. Whatever was parsed can be
  printed, and parses to an equal value again. Strings are UTF-8 however their characters are
  escaped, and exactly the well-formed ones are accepted.
- **SM4 and SM3** (`Sm4*.dfy`, `Sm3*.dfy`): the block cipher, its key schedule, ECB and CBC with
  padding, the buffering update and final calls, the MAC, and the byte-fed hash with its
  compression. Cipher and schedule follow the recurrences of the standards, bit by bit; decryption
  undoes encryption; the key is recoverable from the round keys; streaming equals one-shot however
  the input is cut; the hash equals folding the compression over the standard padding, which
  determines the message.
- **Packets** (`Packet.dfy`): every field of a packet from the keys and the arguments, exactly which
  messages are accepted, and that what one side puts into a packet the other side gets out, with the
  exact flag combination for which that fails.
- **CRC** (`Crc*.dfy`): the checksum as the remainder of a division of polynomials over GF(2),
  table-driven against bit-wise division, and augmented messages.
- **Profile files** (`Ini*.dfy`): a write is read back exactly unless a header was left open; on
  well-formed files reading is a lookup and writing an update of the configuration they hold, over
  whole runs of writes.
- **Smaller cores**: the batch allocator, the reference count of task heads, two base64 codecs, the
  apportionment of percentages, and the version comparison.

`Common.dfy` holds what they share: optional results, C strings, bytes and slices. Each core has
specification functions that say what is computed, methods and classes that run the source's loops
and are proved against them, and lemmas that prove what the source promises about the
specification. `dafny verify dfyconfig.toml` checks everything.

## Results that differ from what a reader of the source might expect

- A flag that asks for encryption without a MAC reserves padding but never encrypts; the receiver
  takes the reserved bytes for data (`Packet.PacketRoundTrip`, `Packet.SendAndReceive`).
- With reflected input, `crc_optimal` is wrong whenever the register is wider than the checksum:
  the table keeps bits above the width, and the next byte shifts them into it
  (`Crc.AgreeExactly`, `Crc.TwoBytes`).
- `sm4_CBC_MAC` does not clear its buffer for a last partial block (`Sm4Mac.MacAgreesExactly`).
- `Value::operator<=` is the reversed relation (`JsonValue.LessEqualIsReversed`).
- The allocator leaves its page unless the allocation size divides the page size
  (`BatchAllocator.InsideExactly`).
- In an array any punctuation but a closing bracket separates items, a comma before a closing brace
  is accepted after an empty name, a minus sign alone is zero, and text behind the root is ignored
  (`JsonQuirks.AnySeparator`, `JsonQuirks.TrailingCommaInObject`, `JsonQuirks.LoneMinus`,
  `JsonQuirks.RestIgnored`).
- Assigning a task head to itself uses a freed block when it is the only holder
  (`TaskHead.StepSafe`).
- A profile file that leaves a header open swallows the next section written
  (`Ini.ReadAfterWrite`).
- After `sm4_UpdateBlock` has failed for lack of room, trying again chains the block a second time
  when encrypting in CBC mode (`Sm4Stream.RetryExactly`).
- Bytes given to `sm4_FinalBlock` that complete the block lose the block of padding
  (`Sm4Stream.FinalInputExactly`), and `enin_sm4` accepts padding arguments that `dein_sm4` refuses
  (`Sm4Modes.EcbRoundTrip`).
- `b64_decode_ex` may return NULL on a text with a single base64 character, where the agent's
  decoder returns an empty result (`Base64.DecodeBoth`, `Base64.LoneCharacter`).
- When percentages have to be lowered, a higher score can end below a lower one
  (`TaskExam.FairExactly`, `TaskExam.Unfair`).

## How the source is represented

- Reader and writers take the C library's printing and scanning of doubles as function parameters;
  a real number comes back if those two functions give it back. An array is the sequence of its
  stored elements with ascending indices, so gaps are part of the model; an object is its members
  in `strcmp` order; a document is a sequence of characters.
- The S-box and the constants of SM4, and the constants and start value of SM3, are parameters:
  every statement holds for any contents. The streaming hash is stated for any compression, of
  which the source's (`Sm3Compress.dfy`) is one. A rotation by zero bits, which the source writes
  as a shift by the whole width, leaves the word.
- Output buffers are arrays with the capacity the caller states. What a buffer held before the
  call is part of the statements (`Splice`), so nothing is written outside the stated places.
- A CRC register is the sequence of its bits, lowest power first; its length is the number of
  digits of the register type, and the width of the checksum may be smaller. For a width of eight
  the source reflects through a byte, which gives the same low eight bits.
- The percentages are computed in doubles in the source. Scores are 32-bit integers, so the
  quotient is exact enough that truncation gives the integer quotient modelled here.
- The profile file editor passes the rest of the file to `sprintf` as a format string; what
  `sprintf` makes of it is a parameter. Reading back does not depend on it, because the new entry
  stands before that text; the configuration statements are for files without a percent sign.
- What `realloc` to zero bytes gives, a block or NULL, is a parameter of the library's base64
  decoder.
- `public/astconfig.cpp` repeats the profile file algorithm; one model covers both.

## Model

| member | source | states |
|---|---|---|
| `JsonValue.StrictTotalOrder` | public/json/json_value.cpp:565-607 | `operator<` is irreflexive, transitive and total on NaN-free values, by induction through nested arrays and objects, and its ties are exactly `operator==` |
| `JsonOrder.TypesDecide` | public/json/include/value.h:23-33 | values of different types follow the enumeration: null, int, uint, real, string, boolean, array, object |
| `JsonOrder.NaturalOrder` | public/json/json_value.cpp:572-588 | within a type the order is the natural one: integers, unsigned and real numbers by `<`, false before true, strings by the first differing character or the end of the shorter one up to the first NUL, and the string without text below every other |
| `JsonOrder.ArrayOrder` | public/json/json_value.cpp:590-597 | an array with fewer entries is less; among arrays with as many, exactly the one with the smaller index or item at the first difference |
| `JsonOrder.ObjectOrder` | public/json/json_value.cpp:590-597 | an object with fewer members is less; among objects with as many, exactly the one with the smaller name or item at the first difference |
| `JsonOrder.GreaterItem` | public/json/json_value.cpp:590-597 | replacing any item of an array or object by a greater one gives a greater container |
| `JsonValue.Trichotomy` | public/json/json_value.cpp:627-669 | exactly one of less, equal and greater holds, so the ties of `operator<` are exactly `operator==` |
| `JsonValue.Transitive` | public/json/json_value.cpp:565-607 | transitivity of `operator<` on its own, by simultaneous induction over three values |
| `JsonValue.LessEqualIsReversed` | public/json/json_value.cpp:609-625 | `operator<=` as written is "not less", i.e. "greater or equal": it agrees with the order only on equal values |
| `JsonValue.PutContents` | public/json/json_value.cpp:1023-1060 | assigning a member replaces the entry of that name and nothing else: the new entry is there, entries of other names stay, and no other entry appears |
| `JsonValue.PutKeepsOrder` | public/json/json_value.cpp:218-232 | the members stay strictly sorted by `strcmp`, which makes later lookups deterministic |
| `JsonValue.PutKeepsWf` | public/json/json_value.cpp:1023-1060 | an object stays well formed when a well-formed value is stored under a NUL-free name |
| `JsonValue.ItemAtFinds` | public/json/json_value.cpp:997-1012 | indexing a sparse array finds the element stored under that index |
| `JsonValue.LookupMember` | public/json/json_value.cpp:1064-1080 | looking a name up finds the member stored under it |
| `JsonGrammar.ReadToken` | public/json/json_reader.cpp:277-348 | a token starts after the blanks, lies inside the document, is never empty before the end, and its text satisfies the token's own shape |
| `JsonGrammar.Recover` | public/json/json_reader.cpp:777-790 | error recovery stops inside the document and not before where it started |
| `JsonGrammar.ReadValue` | public/json/json_reader.cpp:198-245 | reading stays inside the document, only appends errors, succeeds exactly when it appends none, and advances when it succeeds |
| `JsonGrammar.ReadArray` | public/json/json_reader.cpp:542-581 | the same soundness for arrays, where any token but the closing bracket separates items |
| `JsonGrammar.ReadObject` | public/json/json_reader.cpp:483-538 | the same soundness for objects, where a closing brace ends the object before a name only while the previous name is empty |
| `JsonGrammar.Parse` | public/json/json_reader.cpp:154-194 | parsing is total and returns true if and only if the error list is empty |
| `JsonReader.Reader.SkipBlanks` | public/json/json_reader.cpp:352-362 | the loop stops at the first character that is not blank |
| `JsonReader.Reader.Match` | public/json/json_reader.cpp:366-377 | keywords: the backwards comparison accepts exactly the pattern and moves only then |
| `JsonReader.Reader.ReadString` | public/json/json_reader.cpp:467-479 | the loop ends at the first quote that is not escaped |
| `JsonReader.Reader.NextToken` | public/json/json_reader.cpp:277-348 | the tokenizer refines `ReadToken`, position included |
| `JsonReader.Reader.DecodeInteger` | public/json/json_reader.cpp:585-619 | the digit loop with its thresholds gives signed, unsigned or real exactly as `DecodeNumber` says |
| `JsonReader.Reader.DecodeUnicodeEscapeSequence` | public/json/json_reader.cpp:737-759 | four hexadecimal digits, or the error at the digit that is none |
| `JsonReader.Reader.DecodeUnicodeCodePoint` | public/json/json_reader.cpp:707-733 | surrogate pairs, with the errors of a missing second half |
| `JsonReader.Reader.DecodeText` | public/json/json_reader.cpp:661-704 | string decoding refines the recursive decoder, errors included; what that decoder means is stated by `JsonUnicode.StringsExactly` and `JsonUnicode.StringMeans` |
| `JsonUnicode.Utf8Reads` | public/json/json_reader.cpp:72-110 | the bytes written for a code point up to 10FFFF are read by an independent UTF-8 reader (section 3 of RFC 3629) as that code point, in one, two, three or four bytes |
| `JsonUnicode.Utf8Only` | public/json/json_reader.cpp:72-110 | conversely whatever that reader accepts as a code point is exactly the bytes written for it |
| `JsonUnicode.CanBeWritten` | public/json/json_reader.cpp:707-733 | every code point but a lone high surrogate has a form as four digits or as its two surrogates |
| `JsonUnicode.StringsExactly` | public/json/json_reader.cpp:661-704 | exactly which strings are accepted and as what: up to the first closing quote a sequence of ordinary bytes, two-character escapes, four hexadecimal digits that are no high surrogate, or a high surrogate and a second escape; the text is what they stand for |
| `JsonUnicode.StringMeans` | public/json/json_reader.cpp:661-759 | for every sequence of code points, each written as itself, as a short escape, as four digits in either case, or as two surrogates, the document parses and its string is the UTF-8 of exactly those code points |
| `JsonReader.Reader.RecoverFromError` | public/json/json_reader.cpp:777-790 | tokens are skipped to the wanted one or the end, errors added meanwhile are dropped |
| `JsonReader.Reader.ReadObjectFrom` | public/json/json_reader.cpp:483-538 | the member loop refines `ReadObject`, errors and partial value included; the node stack below is untouched |
| `JsonReader.Reader.ReadArrayFrom` | public/json/json_reader.cpp:542-581 | the item loop refines `ReadArray`; the node stack below is untouched |
| `JsonReader.Reader.ReadNode` | public/json/json_reader.cpp:198-245 | `readValue` refines `ReadValue` and leaves the node stack at its entry depth |
| `JsonReader.Reader.ParseDocument` | public/json/json_reader.cpp:154-194 | `parse` ends on every document with measure end minus current, never leaves the document, leaves one node, and returns true exactly when no error was recorded |
| `JsonQuirks.BlanksAreStandard` | public/json/json_reader.cpp:352-362 | the blank characters are those of section 2 of RFC 8259 |
| `JsonQuirks.RestIgnored` | public/json/json_reader.cpp:175-193 | closing tokens behind the root value are not looked at: the result is that of the value alone |
| `JsonQuirks.AnySeparator` | public/json/json_reader.cpp:562-579 | in an array a closing brace separates two items as well as a comma does, and nothing is reported |
| `JsonQuirks.TrailingCommaInArray` | public/json/json_reader.cpp:553-560 | a comma before the closing bracket is refused: a value is expected there |
| `JsonQuirks.TrailingCommaInObject` | public/json/json_reader.cpp:495-537 | a comma before the closing brace is refused, except exactly when the name before it is empty |
| `JsonQuirks.RepeatedName` | public/json/json_reader.cpp:511-514 | of two members with one name the second replaces the first, and nothing is reported |
| `JsonQuirks.MissingColonReported` | public/json/json_reader.cpp:504-510 | any other punctuation behind a name is reported as the missing colon, and nothing is stored |
| `JsonQuirks.MissingCommaReported` | public/json/json_reader.cpp:518-527 | a closing bracket behind a member is reported as the missing comma, and the member stays stored |
| `JsonQuirks.LoneMinus` | public/json/json_reader.cpp:585-619 | a minus sign alone is read as zero |
| `JsonQuirks.CommentFirst` | public/json/json_reader.cpp:248-262 | a comment before the value is passed over when comments are allowed and refused otherwise, whatever its text |
| `JsonWriter.UIntToString` | public/json/json_writer.cpp:31-40 | the digits written backwards into the buffer are the decimal text, inside the buffer for every 32-bit value |
| `JsonWriter.ValueToStringInt` | public/json/json_writer.cpp:43-55 | the sign is put before the digits of the negated number |
| `JsonWriter.ValueToQuotedString` | public/json/json_writer.cpp:112-173 | both paths, with and without special characters, give the quoted and escaped text up to the first NUL |
| `JsonWriter.FastWriter.Write` | public/json/json_writer.cpp:198-205 | the compact document, ended by a newline, for every value and both separators |
| `JsonWriter.FastWriter.WriteValue` | public/json/json_writer.cpp:208-264 | appends exactly the compact text of the value to the document |
| `JsonWriter.StyledWriter.Write` | public/json/json_writer.cpp:277-288 | the indented document, ended by a newline, whatever state the writer was left in |
| `JsonWriter.StyledWriter.WriteValue` | public/json/json_writer.cpp:291-349 | appends the indented text and restores the indentation; or pushes the text of a leaf while children are being rendered |
| `JsonWriter.StyledWriter.WriteObjectValue` | public/json/json_writer.cpp:315-348 | members one per line, each after its quoted name |
| `JsonWriter.StyledWriter.IsMultilineArray` | public/json/json_writer.cpp:405-433 | decides by the number of items, nested containers and the length of the rendered line, and leaves the rendered children for the writer |
| `JsonWriter.StyledWriter.WriteArrayValue` | public/json/json_writer.cpp:352-402 | one line or one item per line, from rendered children or directly, as the decision says |
| `JsonLines.StyledDocument` | public/json/json_writer.cpp:277-402 | the indented document is a list of lines: three blanks per level, a container opened behind its name or indentation and closed on a line of its own, a comma behind every item but the last |
| `JsonLines.StyledIsLines` | public/json/json_writer.cpp:446-466 | the same for any value behind any text that ends in a blank: the printer's rule of looking at the last character never breaks a line in a wrong place |
| `JsonLines.OneLineIs` | public/json/json_writer.cpp:405-433 | an array is put on one line exactly when it has at most 24 slots, no filled container among them, and the line as printed is shorter than 74 characters |
| `JsonLines.FastIsTokens` | public/json/json_writer.cpp:208-264 | the compact text is the tokens of the value with nothing between them |
| `JsonLayout.FastLexes` | public/json/json_writer.cpp:208-264 | the compact text lays out exactly the tokens of the value |
| `JsonLayout.StyledLaid` | public/json/json_writer.cpp:291-402 | the indented text lays out the same tokens after whatever precedes it |
| `JsonRoundTrip.ScanEscaped` | public/json/json_reader.cpp:467-479 | the tokenizer passes over an escaped string to its closing quote |
| `JsonRoundTrip.DecodeEscaped` | public/json/json_reader.cpp:661-704 | decoding an escaped string gives the string back, for every NUL-free string |
| `JsonRoundTrip.DigitsBack` | public/json/json_reader.cpp:596-612 | reading decimal digits gives the number back, or gives up exactly above the threshold |
| `JsonRoundTrip.IntBack` | public/json/json_reader.cpp:585-619 | a printed signed integer comes back as itself above -2147483640 and as a real from there down |
| `JsonRoundTrip.UIntBack` | public/json/json_reader.cpp:585-619 | a printed unsigned integer comes back signed up to 2147483647, unsigned below 4294967290, and as a real from there up |
| `JsonRoundTrip.ReadBack` | public/json/json_reader.cpp:198-245 | reading any layout of a value's tokens, whatever follows, gives its normal form and stops behind it |
| `JsonRoundTrip.ParseLayout` | public/json/json_reader.cpp:154-194 | parsing any layout of a value gives its normal form; a strict reader refuses exactly the roots that are neither null nor containers |
| `JsonRoundTrip.FastRoundTrip` | public/json/json_writer.cpp:198-264 | parse after `FastWriter::write`, for every value and either separator |
| `JsonRoundTrip.StyledRoundTrip` | public/json/json_writer.cpp:277-402 | parse after `StyledWriter::write`, for every value |
| `JsonRoundTrip.EqualIffCanonical` | public/json/json_value.cpp:627-669 | the normal form equals the value under `operator==` if and only if arrays are dense and integers lie in -2147483639..2147483647 (signed) or 2147483648..4294967289 (unsigned) |
| `JsonRoundTrip.RoundTrip` | public/json/json_reader.cpp:154-194 | both printers' output parses to the same value, and that value equals the original if and only if the original is canonical |
| `JsonParsed.ParsedTidy` | public/json/json_reader.cpp:154-245 | for every document, malformed ones included, the result is the given root or has integers inside the thresholds, dense arrays and sorted NUL-free names throughout |
| `JsonParsed.ParsedWf` | public/json/json_reader.cpp:154-245 | whatever was parsed, the printers' precondition holds of it |
| `JsonParsed.ParsedAgain` | public/json/json_reader.cpp:154-194 | printing what was parsed, with either printer, and parsing that gives an equal value if and only if its real numbers come back |
| `JsonParsed.ParsedAgainRealFree` | public/json/json_reader.cpp:154-194 | without real numbers, parse after print after parse always equals the first parse |
| `JsonParsed.DigitsBelow` | public/json/json_reader.cpp:596-612 | the threshold check before each digit keeps the number below ten times the threshold |
| `JsonRoundTrip.PrintersAgree` | public/json/json_writer.cpp:291-443 | the reader's own tokenizer finds the same token texts in both printers' output: they differ in blanks between tokens only |
| `Sm4Cipher.PutGet` | public/sm/sm4.cpp:97-110 | the byte order helpers undo each other |
| `Sm4Cipher.StepsBack` | public/sm/sm4.cpp:268-323 | any number of Feistel steps is undone by the reversed round keys on the flipped block, for every mixing function |
| `Sm4Cipher.CryptBack` | public/sm/sm4.cpp:442-497 | block decryption undoes block encryption for every table, every key and any number of rounds |
| `Sm4Cipher.CryptInPlace` | public/sm/sm4.cpp:268-323 | the loop over the 36-word buffer computes the network on the block in place; `Sm4Standard.CryptIsStandard` and `Sm4Standard.LtBits` say what that network is |
| `Sm4Cipher.ExpandKey` | public/sm/sm4.cpp:515-538 | the key schedule loop produces the recursive schedule, which `Sm4Standard.RoundKeysAreStandard` describes |
| `Sm4Cipher.SetKey` | public/sm/sm4.cpp:141-161 | the round keys of that schedule always, their reverse for decryption exactly when the flag asks for it |
| `Sm4Standard.CryptIsStandard` | public/sm/sm4.cpp:268-323 | section 6.2 of GB/T 32907-2016: the words start with the block, each further one is the word four back combined with the transform of the three between and the round key, and the output is the last four in reverse |
| `Sm4Standard.RoundKeysAreStandard` | public/sm/sm4.cpp:515-538 | section 7.3 of the standard: the first four of 36 key words are the key words combined with FK, each further one the word four back combined with the transform of the three between and CK, and the round keys are words 4 to 35 |
| `Sm4Standard.KeyRecoverable` | public/sm/sm4.cpp:515-538 | different keys have different round keys: the schedule runs backwards to the key, for any tables |
| `Sm4Standard.LtBits` | public/sm/sm4.cpp:559-576 | bit j of the round transform is the exclusive-or of bits j, j-2, j-10, j-18 and j-24 modulo 32 of the substituted word |
| `Sm4Standard.CalciRKBits` | public/sm/sm4.cpp:540-557 | bit j of the key transform is the exclusive-or of bits j, j-13 and j-23 modulo 32 of the substituted word |
| `Sm4Standard.SubstituteBytes` | public/sm/sm4.cpp:563-572 | each byte of the substituted word is the S-box of the same byte |
| `Sm4Standard.BigEndian` | public/sm/sm4.cpp:97-110 | the first byte of a word is its most significant one |
| `Sm4Modes.DecEnc` | public/sm/sm4.cpp:221-266 | decrypting whole blocks undoes encrypting them, in ECB and CBC, from every chaining value |
| `Sm4Modes.EncAppend` | public/sm/sm4.cpp:626-673 | encrypting two parts one after the other, the chaining value carried over, is encrypting both |
| `Sm4Modes.EncRule` | public/sm/sm4.cpp:626-673 | block by block: in ECB each is encrypted on its own, in CBC after being combined with the encrypted block before it, the first with the initial value |
| `Sm4Modes.DecRule` | public/sm/sm4.cpp:675-735 | the same for decryption: in CBC the decrypted block is combined with the encrypted block before it |
| `Sm4Modes.PaddedMeans` | public/sm/sm4.cpp:163-219 | padding argument 0 adds fewer than sixteen zeros; any other adds one to sixteen bytes whose value is their number |
| `Sm4Modes.UnpadExactly` | public/sm/sm4.cpp:250-265 | exactly the padded messages pass the check of counted padding |
| `Sm4Modes.UnpadPadded` | public/sm/sm4.cpp:250-265 | counted padding (section 6.3 of RFC 5652) is removed exactly; zero padding is exact if and only if the message is whole blocks |
| `Sm4Modes.EcbRoundTrip` | public/sm/sm4.cpp:163-266 | `dein_sm4` after `enin_sm4` for every key and message: the message comes back if and only if the padding argument is 1, or is 0 and the message is whole blocks; other arguments encrypt with counted padding but are refused with code 4 |
| `Sm4Modes.CbcRoundTrip` | public/sm/sm4.cpp:626-735 | `dein_sm4_CBC` after `sm4_CBC` gives the message back, for every key, initial value and message |
| `Sm4OneShot.EninSm4` | public/sm/sm4.cpp:163-219 | the loop writes the ECB encryption of the padded message, or fails with 1 exactly when the buffer is too small and then writes nothing |
| `Sm4OneShot.DeinSm4` | public/sm/sm4.cpp:221-266 | error codes 4, 1, 3 and 5 exactly as specified, with 4 and 1 the buffer untouched, else the decrypted and unpadded message |
| `Sm4OneShot.Sm4Cbc` | public/sm/sm4.cpp:626-673 | the loop writes the CBC encryption of the padded message |
| `Sm4OneShot.DeinSm4Cbc` | public/sm/sm4.cpp:675-735 | CBC decryption with two chaining buffers swapped by pointer, and the padding check; with codes 4 and 1 the buffer untouched |
| `Sm4OneShot.DecryptBlocks` | public/sm/sm4.cpp:675-735 | the two buffers that exchange roles in every turn compute the chained decryption |
| `Sm4OneShot.CheckPadding` | public/sm/sm4.cpp:250-265 | the padding loop decides exactly what `Unpad` decides |
| `Sm4Stream.UpdateTwice` | public/sm/sm4.cpp:773-858 | two updates are one update with both inputs: same output, same state |
| `Sm4Stream.FeedIsUpdate` | public/sm/sm4.cpp:773-858 | however the input is cut into updates, the outputs together and the final state are those of one update |
| `Sm4Stream.StreamEncrypts` | public/sm/sm4.cpp:773-961 | updates and the final call together encrypt the padded message, in either mode with either padding |
| `Sm4Stream.StreamIsOneShot` | public/sm/sm4.cpp:860-961 | streaming gives what `enin_sm4` gives (ECB, both paddings) and what `sm4_CBC` gives, for every way of cutting |
| `Sm4Stream.StreamDecrypts` | public/sm/sm4.cpp:860-961 | streaming decryption, the last bytes given to the final call, decrypts and unpads as at once, error codes included |
| `Sm4Stream.StreamMacs` | public/sm/sm4.cpp:860-961 | the streaming MAC is the last chaining value over the zero-padded message |
| `Sm4Stream.Sm4Obj.Init` | public/sm/sm4.cpp:737-771 | the argument checks, the key, and an empty stream |
| `Sm4Stream.Sm4Obj.Update` | public/sm/sm4.cpp:773-858 | the buffering loop refines one update; it fails with 2 exactly when the completed blocks do not fit, and then has written those that fit and keeps the next one, already chained unless it decrypts; from that state a further call processes the kept block once more |
| `Sm4Stream.RetryExactly` | public/sm/sm4.cpp:786-852 | a retry after that failure continues the stream correctly if and only if it decrypts, or the mode is ECB, or the cipher happened to map the block to its chaining value |
| `Sm4Stream.Sm4Obj.Finish` | public/sm/sm4.cpp:860-961 | the final call while encrypting or chaining, with or without further input: 1 beyond one block, 2 when the result does not fit, each with the buffer untouched, else the completed block, the MAC, or nothing |
| `Sm4Stream.FinalMeans` | public/sm/sm4.cpp:860-961 | without further input, what is written is the padded last block or the MAC |
| `Sm4Stream.FinalInputExactly` | public/sm/sm4.cpp:871-906 | giving bytes to the final call is an update with them before it, if and only if they do not complete the block while encrypting with counted padding; there the block of padding is lost |
| `Sm4Stream.Sm4Obj.FinishDecrypt` | public/sm/sm4.cpp:860-961 | the final call while decrypting: exactly one block must be complete, then the padding check's code or the plain bytes |
| `Sm4Mac.CbcMac` | public/sm/sm4.cpp:583-622 | the loop of the one-shot MAC, including the part of its local buffer that is never set |
| `Sm4Mac.MacAgreesExactly` | public/sm/sm4.cpp:583-622 | the one-shot MAC equals the streaming MAC if and only if the message is whole blocks or the unset bytes happen to be zero |
| `Sm3.Sm3Ctx.Feed` | public/sm/sm3.cpp:126-137 | one byte, stored through the index exclusive-or three: the whole blocks are folded, the buffer holds the rest, and the two counter words hold eight times the length modulo 2^64 |
| `Sm3.Sm3Ctx.Update` | public/sm/sm3.cpp:117-140 | the invariant after any number of bytes |
| `Sm3.Sm3Ctx.FeedPadding` | public/sm/sm3.cpp:152-154 | the padding loop ends, after the mark and the zeros up to 448 modulo 512 bits |
| `Sm3.Sm3Ctx.Final` | public/sm/sm3.cpp:142-164 | the digest is that of everything fed, whatever the calls it came in |
| `Sm3.HashChunks` | public/sm/sm3.cpp:117-164 | any sequence of updates and the final call give the folding of the compression function over the standard padding (sections 5.2 and 5.3 of GB/T 32905-2016) of the concatenated input |
| `Sm3.Sm3` | public/sm/sm3.cpp:166-173 | the one-call form gives the same digest, 32 bytes long |
| `Sm3.FoldAppend` | public/sm/sm3.cpp:84-114 | folding two parts one after the other is folding both |
| `Sm3Padding.PadMeans` | public/sm/sm3.cpp:142-157 | section 5.2 of GB/T 32905-2016 in numbers: the message, a byte 0x80, the fewest zeros, and eight bytes that hold the length in bits modulo two to the 64 |
| `Sm3Padding.PadInjective` | public/sm/sm3.cpp:142-157 | different messages have different padded messages, however long they are |
| `Sm3Compress.Transform` | public/sm/sm3.cpp:84-114 | the three loops, in place on the registers and the word buffer, compute the compression; it is an instance of the parameter the hash takes |
| `Sm3Compress.ExpandIsStandard` | public/sm/sm3.cpp:89-90 | section 5.3.2 of the standard: the recurrence of the expanded words |
| `Sm3Compress.RoundIsStandard` | public/sm/sm3.cpp:91-111 | section 5.3.3 of the standard: one round with its four intermediate words |
| `Sm3Compress.RoundsUndone` | public/sm/sm3.cpp:95-111 | for every block the rounds run backwards to the registers: they are one-to-one |
| `Sm3Compress.ExpandInjective` | public/sm/sm3.cpp:89-90 | the block is recoverable from any last sixteen expanded words: expansion loses nothing |
| `Sm3Compress.P0Four` | public/sm/sm3.cpp:4 | the permutation of the rounds undoes itself when applied four times |
| `Sm3Compress.P1Four` | public/sm/sm3.cpp:5 | so does the permutation of the expansion |
| `Sm3Compress.MajorityBits` | public/sm/sm3.cpp:6 | from round 16 on each bit of the first function is the majority of the three bits |
| `Sm3Compress.ChoiceBits` | public/sm/sm3.cpp:7 | and each bit of the second function is chosen by the first of its bits |
| `Sm3.CounterStep` | public/sm/sm3.cpp:129-134 | the carry between the two counter words is the carry of the length in bits |
| `Sm3.HoldsWords` | public/sm/sm3.cpp:124-128 | bytes stored through the exclusive-or index are the big-endian words of the block |
| `Packet.PacketRoundTrip` | public/astPackage/astpackage.cpp:135-288 | the receiver gets the sender's header fields and exactly the data if and only if the flag does not ask for encryption without a MAC; in that case it gets the reserved bytes as well |
| `Packet.OpenPrefix` | public/astPackage/astpackage.cpp:217-288 | what is received depends on the bytes of the message only, not on the memory behind it |
| `Packet.SendAndReceive` | public/astPackage/astpackage.cpp:135-288 | one agent sends and another with the same keys receives: code 0, the header, and the text in the receiver's buffer, exactly unless the flag asks for encryption without a MAC; in that case code 7 or the stale bytes behind the text, as the room decides |
| `Packet.Agent.PutData` | public/astPackage/astpackage.cpp:135-215 | codes -1, 1 and 2 exactly on their conditions with the buffer untouched, otherwise the packet and nothing past it, written out field by field: version, type, flag, zero, length, identity, session, the first four bytes of the digest of the data and the second half of the session key, and the body encrypted under its first half; the session key is the digest of `ka` for index 1 and of `ki` for every other index, with the session |
| `Packet.Agent.GetData` | public/astPackage/astpackage.cpp:217-288 | every error code exactly on its condition, otherwise the header, the data and a terminator; code 0 exactly for a message that carries data shorter than the room, with length, MAC and body written out from `ka` or `ki` |
| `Packet.PacketFields` | public/astPackage/astpackage.cpp:135-215 | every field of a packet from the root key, the header and the data, through the digest and the block encryption only |
| `Packet.HalvesSeparate` | public/astPackage/astpackage.cpp:156-190 | the MAC depends on the second half of the derived key only, the encrypted body on the first half only |
| `Packet.TwoSenders` | public/astPackage/astpackage.cpp:158-160 | agents that share the key of the index write the same packet, whatever their other key is |
| `Packet.AcceptsExactly` | public/astPackage/astpackage.cpp:217-288 | the receiver accepts exactly the messages whose length, MAC and body agree and whose data is shorter than its room, and gives that data |
| `Packet.RefusesMac` | public/astPackage/astpackage.cpp:262-268 | code 6 exactly for a message whose body gives data that its MAC is not of |
| `Packet.TextBack` | public/astPackage/astpackage.cpp:139-140 | what is left in the receiver's buffer is, as a string, what the sender passed |
| `Packet.LengthBack` | public/astPackage/astpackage.cpp:208-227 | the length field read as a signed integer is the length written |
| `Packet.Agent.EncryptByID` | public/astPackage/astpackage.cpp:312-347 | the padded encryption under the first half of the digest of root key and identity, and the digest of the data and its second half; or codes -1, 1 and 2 |
| `Packet.Agent.DecryptByID` | public/astPackage/astpackage.cpp:349-379 | refuses short, misaligned and badly padded input, else the plain bytes |
| `Packet.IdRoundTrip` | public/astPackage/astpackage.cpp:312-379 | decrypting by identity gives the data back if and only if the caller has room for it |
| `Crc.FeedLinear` | public/bt/boost/include/boost/crc.hpp:548-576 | bit-wise division is linear over GF(2), in remainder and input together |
| `CrcDivision.FeedDivides` | public/bt/boost/include/boost/crc.hpp:548-576 | with multiplication over GF(2) defined by convolution: the message, the register combined into its first bits and as many zero bits behind it, is a quotient times the full polynomial plus the register afterwards |
| `CrcDivision.DivisionUnique` | public/bt/boost/include/boost/crc.hpp:548-576 | there is only one such quotient and remainder |
| `CrcDivision.MsgBitsAt` | public/bt/boost/include/boost/crc.hpp:1826-1875 | which bit of which byte is read when, for either reflection |
| `CrcDivision.BasicMeans` | public/bt/boost/include/boost/crc.hpp:1889-1898 | the checksum is the remainder of that division, reversed when the output is, combined with the final mask, and zero above the width |
| `CrcDivision.MaskChanges` | public/bt/boost/include/boost/crc.hpp:1889-1898 | in either computer the final mask changes the checksum in exactly its own bits |
| `CrcDivision.ReflectedOutput` | public/bt/boost/include/boost/crc.hpp:1889-1898 | in either computer, without a mask, reflecting the output reverses the low bits |
| `Crc.ByteStep` | public/bt/boost/include/boost/crc.hpp:1141-1159 | eight steps at once: shift the top byte out and add the table element of what it differs by from the input |
| `Crc.TablesAgree` | public/bt/boost/include/boost/crc.hpp:2087-2114 | `crc_optimal` equals `crc_basic` for every message, polynomial, initial remainder, final mask and both reflections, on direct input and on reflected input in a register of exactly the width |
| `Crc.AgreeExactly` | public/bt/boost/include/boost/crc.hpp:1234-1253 | they agree on all messages if and only if the input is not reflected or the register has no bits above the width |
| `Crc.TwoBytes` | public/bt/boost/include/boost/crc.hpp:966-985 | otherwise one first byte, computed from the parameters, makes every two-byte message that begins with it come out wrong |
| `Crc.Spill` | public/bt/boost/include/boost/crc.hpp:1234-1253 | exactly which bits are wrong: those the table left above the width, eight places down |
| `CrcAugmented.AugmentedIsPlain` | public/bt/boost/include/boost/crc.hpp:667-692 | straight division over a message with room for the checksum is the altered division from the settled remainder, for every initial remainder |
| `CrcAugmented.AugTableIsFeed` | public/bt/boost/include/boost/crc.hpp:1110-1128 | the table-driven augmented update divides like the bit-wise one |
| `CrcAugmented.AugmentedZeros` | public/bt/boost/include/boost/crc.hpp:2280-2294 | `augmented_crc` over a message and width/8 zero bytes is the plain checksum, for widths divisible by eight |
| `CrcAugmented.AugmentedDetects` | public/bt/boost/include/boost/crc.hpp:2280-2294 | with a checksum appended in big-endian order the result is zero if and only if the checksum is the right one |
| `CrcEngine.ReflectUnsigned` | public/bt/boost/include/boost/crc.hpp:383-397 | the loop from the outside in reverses the low bits and keeps the others |
| `CrcEngine.ModuloWordUpdate` | public/bt/boost/include/boost/crc.hpp:548-576 | the loop divides by the bits of the word in the order the flag asks for |
| `CrcEngine.MakeTable` | public/bt/boost/include/boost/crc.hpp:966-985 | every element of the table is the product of its index, also when index and element are reflected |
| `CrcEngine.CrcUpdate` | public/bt/boost/include/boost/crc.hpp:1141-1159 | the byte loop computes the table-driven update, direct or reflected |
| `CrcEngine.AugmentedCrc` | public/bt/boost/include/boost/crc.hpp:2280-2294 | the whole augmented computation |
| `CrcEngine.CrcBasic.ProcessBits` | public/bt/boost/include/boost/crc.hpp:1761-1781 | the lowest bits of a byte are fed, the highest of them first |
| `CrcEngine.CrcBasic.ProcessBytes` | public/bt/boost/include/boost/crc.hpp:1826-1875 | the remainder after all the bits of the message in reading order |
| `CrcEngine.RunBasic` | public/bt/boost/include/boost/crc.hpp:1889-1898 | a whole run of the bit-wise computer gives the checksum that `CrcDivision.BasicMeans` describes |
| `CrcEngine.RunOptimal` | public/bt/boost/include/boost/crc.hpp:2219-2231 | a whole run of the table-driven computer, with the same mask and reflection laws, equal to the bit-wise one under the exact condition |
| `BatchAllocator.Allocator.Allocate` | public/json/json_batchallocator.h:53-77 | returns an object that was not live, inside its page; the one released last if any; requests a page if and only if nothing is free and every page is full; keeps live, free and uncarved pieces a partition |
| `BatchAllocator.Allocator.Release` | public/json/json_batchallocator.h:81-86 | a live object becomes the head of the free list that is threaded through the objects; the partition is kept |
| `BatchAllocator.Allocator.Write` | public/json/json_batchallocator.h:79-86 | what the owner of a live object writes into it cannot damage the free list |
| `BatchAllocator.Allocator.NextPage` | public/json/json_batchallocator.h:61-73 | the search for a page with room never finds one, because all pages but the current one are full |
| `BatchAllocator.LiveDisjoint` | public/json/json_batchallocator.h:51-77 | live objects lie inside their pages and do not overlap |
| `BatchAllocator.CutKeeps` | public/json/json_batchallocator.h:74-76 | cutting a piece adds exactly one address to the carved ones |
| `BatchAllocator.CutTimesUsed` | public/json/json_batchallocator.h:74-110 | after n pieces were cut from a new page, n times the allocation size is in use, and the other pages are as they were |
| `BatchAllocator.InsideExactly` | public/json/json_batchallocator.h:101-110 | the pieces cut one after the other from a new page stay inside its memory if and only if the allocation size divides the page size |
| `TaskHead.StepSafe` | public/astTask/astTask.h:365-455 | every step keeps each count equal to the number of live heads that hold the block, and uses a freed block if and only if a head that is the only holder is assigned to itself |
| `TaskHead.TaskFollows` | public/astTask/astTask.h:365-455 | a copied or assigned head leads where the other does, an attached task is seen through every head that shares the block, and all other heads keep theirs |
| `TaskHead.FreedAtLast` | public/astTask/astTask.h:408-425 | a block is freed exactly by the step that takes away its last holder |
| `TaskHead.RunSafe` | public/astTask/astTask.h:365-455 | every run without that step is free of faults and ends with exact counts |
| `TaskHead.NothingLeaks` | public/astTask/astTask.h:408-425 | when no head is left, every block ever allocated has been freed |
| `TaskHead.AssignSafe` | public/astTask/astTask.h:427-455 | assignment alone: the exact condition of the fault, and exact counts otherwise |
| `TaskHead.Heap.AssignFrom` | public/astTask/astTask.h:427-455 | the assignment in place: release, take over, increment |
| `TaskHead.Heap.CopyFrom` | public/astTask/astTask.h:390-407 | the copy constructor in place |
| `TaskHead.Heap.Delete` | public/astTask/astTask.h:408-425 | the destructor in place |
| `TaskHead.Heap.New` | public/astTask/astTask.h:365-389 | the constructors in place |
| `Ini.ReadAfterWrite` | public/rwIni/ini_parser.cpp:249-314 | reading a just-written section and key gives the value, in all three branches, if and only if the file does not leave open the header into which the new entry would go, a header being open when no closing bracket follows it |
| `Ini.OpenExactly` | public/rwIni/ini_parser.cpp:83-91 | a scan that finds nothing ran into an open header if and only if some opening bracket at the beginning of a line has no closing bracket behind it |
| `Ini.LastWriteWins` | public/rwIni/ini_parser.cpp:285-298 | a second write to the same key gives the file a single write would have given |
| `Ini.FindWritten` | public/rwIni/ini_parser.cpp:72-155 | after a write the key is found exactly where the value was put |
| `Ini.ScanHitKept` | public/rwIni/ini_parser.cpp:292-298 | replacing what follows the equal sign does not change where the key is found |
| `Ini.ScanSectionKept` | public/rwIni/ini_parser.cpp:285-291 | inserting at the end of the last matching header does not change how the file before it is scanned |
| `Ini.ScanSwallowed` | public/rwIni/ini_parser.cpp:272-284 | with a header left open, an appended section becomes part of that header and is not found |
| `IniFile.StrnPrefix` | public/rwIni/ini_parser.cpp:93 | `strncmp` over the length of a name in the file tells whether that name begins the name asked for |
| `IniFile.ParseFile` | public/rwIni/ini_parser.cpp:72-155 | the nested index loops compute the recursive scan; on a hit the out-parameters give the value, the key text before its equal sign and the matching header of the same section, otherwise the last matching section |
| `IniFile.Profile.ReadString` | public/rwIni/ini_parser.cpp:169-214 | 1 and the value cut to the buffer, or 0 and the default |
| `IniFile.Profile.WriteString` | public/rwIni/ini_parser.cpp:249-314 | the file afterwards, in all branches, also where a copied NUL ends the output |
| `IniFile.WriteThenRead` | public/astconfig.cpp:191-335 | write followed by read on one file object, as the class methods do it |
| `IniConfig.ReadIsLookup` | public/rwIni/ini_parser.cpp:72-155 | reading the file of a configuration gives the first value, in order, whose section name and key begin the wanted ones, passing comments and blank lines |
| `IniConfig.WriteIsUpdate` | public/rwIni/ini_parser.cpp:249-314 | writing to it gives the file of the updated configuration: that value replaced, or a line inserted behind the header of the last matching section, or a new section behind a blank line |
| `IniConfig.UpdateGood` | public/rwIni/ini_parser.cpp:249-314 | writable names and values keep the configuration well formed |
| `IniConfig.RunIsConfig` | public/rwIni/ini_parser.cpp:249-314 | after any sequence of writes to an empty file, the file holds the configuration those updates give, and every read is a lookup in it |
| `Base64.DecodeEncode` | public/base64/decode.c:26-130 | decoding undoes encoding for every sequence of bytes (section 4 of RFC 4648) |
| `Base64.AlphabetIsStandard` | public/base64/b64.h:27-36 | both directions of the table are table 1 of RFC 4648, and no other character has an index |
| `Base64.GroupsAgree` | public/astPackage/astpackage.cpp:434-458 | the indices are the six-bit groups of the 24 bits of three bytes, and the bytes the groups of eight of four indices |
| `Base64.AgentEncode` | public/astPackage/astpackage.cpp:434-458 | the agent's encoder, with its own masks and shifts, gives the specified text |
| `Base64.LibraryEncode` | public/base64/encode.c:20-91 | the library's encoder, with different masks, sums and a carry-over buffer, gives the same text |
| `Base64.LibraryDecode` | public/base64/decode.c:26-130 | on every text, malformed ones included: the bytes of the characters before the first one outside the table; or NULL when there is exactly one such character and `realloc` to zero bytes gives NULL |
| `Base64.DecodeBoth` | public/base64/decode.c:83-114 | runs both decoders on one text: they agree if and only if it does not have exactly one character before the first one outside the table, or that `realloc` gives a block |
| `Base64.LoneCharacter` | public/base64/decode.c:106-113 | the text "A", where the library gives NULL and the agent an empty result |
| `Base64.LibraryRoundTrip` | public/base64/decode.c:26-130 | encoded text never comes down to that: the library decodes it to the original bytes in any case |
| `Base64.AgentDecode` | public/astPackage/astpackage.cpp:460-498 | on every text the same bytes, cut to the capacity: exactly the first min(capacity, n), nothing written past the capacity |
| `Base64.UnpackAt` | public/astPackage/astpackage.cpp:460-498 | which two characters each decoded byte comes from |
| `TaskExam.CorrectionFits` | public/astTask/astTask.cpp:54-68 | the correction never needs more items than there are, for every list of non-negative scores with a positive total |
| `TaskExam.BaseIs` | public/astTask/astTask.cpp:54-62 | a first percentage is the whole part of the share of one hundred, or one when that is zero |
| `TaskExam.Exam.FinishInit` | public/astTask/astTask.cpp:47-92 | the percentages sum to exactly 100, none is negative, and each is the rounded share, at least one, corrected by at most one, the highest scores first; and a higher score never ends below a lower one if and only if the correction is not downward or no lowered item was level with a lower score that is not lowered |
| `TaskExam.RankByScore` | public/astTask/astTask.cpp:69-80 | the insertion loop gives a permutation of the places, descending by score, equal scores in their order |
| `TaskExam.Adjust` | public/astTask/astTask.cpp:81-88 | exactly the first ranked items move by one, and the sum moves by exactly the correction |
| `TaskExam.FairExactly` | public/astTask/astTask.cpp:81-88 | a higher score never ends below a lower one if and only if the correction is upward or no lowered item was level with a lower score that is not lowered |
| `TaskExam.RankingUnique` | public/astTask/astTask.cpp:69-80 | the ranking is determined by the scores |
| `TaskExam.Unfair` | public/astTask/astTask.cpp:81-88 | for the scores 335, 334, 331, 0, 0 the correction is one item downward, and 335 and 334 end with 32 and 33 percent |
| `Version.CmpVersion` | public/astTask/astTask.cpp:627-676 | the two-pointer loop ends and returns the first difference of two components |
| `Version.CompareIsLexicographic` | public/astTask/astTask.cpp:627-676 | the sign of the result is the lexicographic comparison of the components, missing ones read as zero |
| `Version.CompareNumbers` | public/astTask/astTask.cpp:627-676 | of two versions written as decimal numbers with dots, the first compares lower exactly when it is lower at the first different number, missing ones being zero |
| `Version.NthOfText` | public/astTask/astTask.cpp:627-676 | the components of a written version are its numbers |
| `Version.AtoiReads` | public/astTask/astTask.cpp:647-648 | `atoi` reads a decimal number back behind blanks and before anything but a digit |
| `Version.CompareTransitive` | public/astTask/astTask.cpp:627-676 | the comparison is transitive, and strict if either part is |
| `Version.CompareReversed` | public/astTask/astTask.cpp:627-676 | exchanging the arguments changes the sign, so the comparison is total |

## Left out

- JSON comments: the reader skips them here but does not collect them, and the writers are modelled for values without comments.
- JSON `StyledStreamWriter`, `Path`, conversions such as `asInt`, `resize` and `removeMember`, and the internal-map variant of `Value`: they would add easy members only.
- JsonLines.StyledDocument: takes the printed text of a real number to end in neither a blank nor a line break, which the source's `"%#.16g"` ensures.
- JSON line and column texts of error messages: errors carry their token and kind instead.
- NaN: real numbers are mathematical reals.
- JSON string without text: `Value(stringValue)` makes one with a NULL pointer; the order and equality cover it, the printers do not, because the source passes that pointer to `strpbrk`.
- JsonWriter.ValueToStringInt: negates the smallest 32-bit integer as a mathematical integer; the source relies on wrap-around for the same digits.
- JSON node stack: a stack of values instead of pointers into the tree being built; writing through the top pointer is replacing the top value when its reader returns.
- SM4 block functions on more than one block at a time: every caller passes sixteen bytes.
- Sm4Stream.Sm4Obj.Update: requires mode 0 or 1 while decrypting; `sm4_InitBlock` accepts mode 2 as well, and with it the source copies an uninitialised array into the chaining value.
- SM4 and SM3 NULL-pointer checks: arrays and sequences cannot be NULL.
- Cryptographic strength, and the contents of constant tables.
- Packet.Agent.GetData: requires what the source needs for defined behaviour, that a message whose length field agrees with its size has a whole header.
- Packet registration, `LoadConf` and `SaveConf`: they only combine the modelled parts with file access.
- Packet sizes beyond the range of `int`.
- CRC widths below eight bits (`sub_byte_crcs`) and the reflected augmented update, which nothing in the repository calls.
- BatchAllocator: page memory from `malloc` is taken to be available; the destructor is not modelled.
- TaskHead: the text fields copied with the head, and the clamp of a negative count, which exact counts make unreachable.
- Task lists, their locks, saving and loading.
- Profile files with NUL or 0xFF bytes, or above the 16 KiB buffer; failing file operations.
- IniConfig.WriteIsUpdate: is for files without a percent sign, because the source passes the rest of the file to `sprintf` as a format; `Ini.Written` keeps that format as a parameter.
- IniConfig.ReadIsLookup: is for files of sections, entries, comments and blank lines; `Ini.OpenExactly` and `Ini.ReadAfterWrite` cover every file.
- Ini.LastWriteWins: is about one key; with names matched by prefix, a write can be visible under longer names.
- Base64.AgentEncode: returns the text instead of filling a caller's buffer that is taken to be large enough.
- Base64: allocation failures other than that of `realloc` to zero bytes, and locale-dependent letters in the library's `isalnum`.
- Version.CmpVersion: requires components that fit the 256-character buffers; integer overflow of `atoi` and of the difference is not modelled.
- Sockets, FTP and BitTorrent clients, system probes, logging, the database wrapper, character conversion and the user interface: input and output around foreign libraries.
