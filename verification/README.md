# Edgebox: a verified model

Edgebox is a gateway between an IoT hub and PLCs behind LoRa nodes. This project models the parts of it that
carry its logic and proves what they are for.

- **The JSON engine** (`src/cJSON.c`). `JsonValue` has the trees and the text printed for them, `JsonReading` the
  trees read from a text. `JsonParser`, `JsonPrinter` and `JsonMinify` are the C loops over their buffers, proved
  against those functions; `JsonRoundTrip`, `JsonLayout`, `JsonMinifyPrint` and `JsonCompare` prove laws about
  the functions. `JsonGrammar` is RFC 8259 itself, independent of the code, and `JsonTokens` its texts as tokens;
  `JsonAcceptance` proves how every text of it is read, `JsonMinifyMeaning` what minifying makes of it and
  `JsonMinifyComments` what becomes of comments. `JsonDialect` is the larger language cJSON reads, also
  independent of the code; `JsonConverse` proves that nothing else is accepted and `JsonExact` that all of it is.
  `JsonList` is the doubly linked child list in the heap, and the deep copy; `JsonBuild` links the nodes of a
  parsed tree. `Utf` holds the `\uXXXX` conversion, judged by RFC 2781 and RFC 3629.
- **SHA-256 and HMAC** (`src/aiot_mqtt_sign.c`). `Sha256Spec` is written from FIPS 180-4 and RFC 2104 alone;
  `Sha256` is the streaming code; `Sha256Constants` derives the constants; `MqttSign` composes the MQTT
  credentials with it.
- **The gateway protocol.** `SwitchIndex` loads the switch definitions, `StatusQuery` plans the reads of one PLC
  and `StatusSweep` sends them to all, in the order `SweepOrder` states, `Crc` and `Modbus` make the frames
  (MODBUS over Serial Line, section 6.2.2; Modbus Application Protocol, sections 6.3 and 6.6), `ModbusDevice` is
  what a device does with one, `LoraMessage` wraps a frame in JSON, `HubMessage` turns a hub message into queued
  commands. `MsgQueue` is the linked queue as the holder of the mutex sees it, and `WsProtocol` is that queue
  under concurrency: a step system with one memory access a step, any number of writing threads and the websocket
  thread.
- **The dictionary** (`src/dictionary.c`). `Dictionary` is the slot table, stated by the finite map it stands
  for.

Ways of reading the model:

- A byte is a number below 256, a C string is a byte sequence without NUL, and `int` arithmetic that wraps in C
  is written with the modulus (or with bit vectors in `Crc`, `Sha256` and the dictionary's hash).
- A number in a JSON tree is kept as its text: the rendering `sprintf` gave it, or the prefix `strtod` consumed.
- A method with a `ghost` parameter such as `kids`, `defs` or `text` takes it only to name, for the proof, what a
  pointer structure holds.
- Where a law the code seems to promise does not hold of it, the exact condition is proved: for the print and
  parse round trip, for reading a text of RFC 8259 as what it means, for keeping an unescaped string whole, for
  minifying a formatted print, for minifying a text of RFC 8259 down to the text without its white space, for
  comparing a tree with its copy, for asking for a register exactly once and for the hexadecimal text of a frame.
  For reading a text as before after minifying it, a condition is proved sufficient, and a text shows that it is
  not necessary.
- In `WsProtocol`, `lws_callback_on_writable` sets a flag that the library clears when it delivers the callback.
  The memory is sequentially consistent, although the unlocked look at the head pointer (`src/wsclient.c`, line
  280) is a data race in C. `fault` is set by a step that follows a null or freed pointer. `history` and `issued`
  only record what happened. The hub queue of `src/mqtt.c` (lines 62-163) has the same enqueue and dequeue code
  without priorities, so its runs are those of `WsProtocol.PlainFifo`; its polling loop is the callback delivered
  again and again (`Established`, then `Deliver`).

Places where the code falls short of what its comments or its intent suggest, all kept as they are:

- `cJSON.h` asks for five spare bytes in a preallocated buffer; two are necessary and sufficient
  (`JsonPrinter.PrintPreallocated`).
- `minify_string` takes the second backslash of an escaped backslash as escaping the quote after it, so a string
  that ends in a backslash does not close (`JsonMinifyPrint.BackslashThenElement`), and later strings may lose
  their spaces and slashes (`JsonMinifyMeaning.StringJoined`).
- `parse_hex4` cannot tell a bad digit from the number 0, so a `\u` with bad digits is accepted as character 0
  (`Utf.ZeroAccepted`), and an escape for character 0 ends the C string early (`JsonReading.WholeTextKept`,
  `JsonReading.BadDigitsEndString`).
- A number is copied into 64 bytes, so one of more than 63 characters is cut in two and the text refused
  (`JsonAcceptance.NumeralRead`).
- `cJSON_Compare` looks members up by key, so a tree with two different values under one key differs from its own
  copy (`JsonCompare.RepeatedKeyDiffers`).
- A sweep asks twice for a register defined in both widths, or at two addresses with the same low byte
  (`StatusSweep.AskedTwice`).
- `cJSON_Print` gives `null` for a NaN or an infinity (`JsonRoundTrip.ParsePrinted`).
- `hex2ascii` gives hexadecimal text for every frame only where `char` is unsigned (`LoraMessage.HexBack`).
- Registers are used as array indices without a range check, so the loader requires them in range
  (`SwitchIndex.InRange`).
- `utils_hmac_sha256` leaves the output untouched, without saying so, for a key of more than 64 bytes, which RFC
  2104 would hash first (`Sha256.HmacSha256`).
- The growth of a print buffer by copying takes one byte more than was printed, which is past the end of the
  empty allocation a first guess of 0 gives (`src/cJSON.c`, line 457); the model copies what is there
  (`JsonPrinter.PrintBuffer.Ensure`).
- The copy of a switch's name is one byte longer than its allocation (`src/parse_switch.c`, lines 196-204); in
  the model the name is a value (`SwitchIndex.PlcNode.Record`).
- The serial number of a hub message is copied into 32 bytes, unchecked, from whatever string pointer the item
  has (`src/mqtt.c`, line 200), so the model requires a string of at most 31 bytes (`HubMessage.SerialFits`).

## Model

| member | source | states |
|---|---|---|
| Utf.ParseHex4 | src/cJSON.c:550-584 | four hexadecimal digits give their number, anything else 0 |
| Utf.AcceptedIsUtf16 | src/cJSON.c:587-705 | the numbers read from the six or twelve characters of an accepted literal are exactly the UTF-16 form (RFC 2781, section 2.1) of the scalar value it yields; four characters with a bad digit count as the number 0 |
| Utf.ZeroAccepted | src/cJSON.c:550-584 | with six characters there, a literal yields character 0 if and only if its digits are `0000` or one of them is not hexadecimal |
| Utf.NonzeroSpelled | src/cJSON.c:587-705 | a literal that yields any other character is spelled in hexadecimal digits throughout |
| Utf.Utf16IsAccepted | src/cJSON.c:587-705 | every spelling of the UTF-16 form of a scalar value is accepted with that value, so only lone or mismatched surrogates are rejected |
| Utf.Utf8IsShortest | src/cJSON.c:651-695 | the bytes written carry the code point (RFC 3629, section 3) and no other byte sequence that carries it is as short |
| Utf.WriteUtf8 | src/cJSON.c:651-695 | the encoding loop, last byte first, writes exactly the UTF-8 form after what was in the output and nothing past it |
| Utf.Utf16LiteralToUtf8 | src/cJSON.c:587-705 | consumes 0 and changes nothing exactly when the literal is rejected; otherwise consumes 6 or 12 characters and appends the UTF-8 form |
| JsonReading.SkipWhitespace | src/cJSON.c:973-991 | stops at the first byte above space and never past the last byte of the text |
| JsonReading.Unescape | src/cJSON.c:760-812 | a failed second scan stops between the quotes, at or after where it started |
| JsonReading.PairsMany | src/cJSON.c:722-745 | passing any number of two-character steps opens at most one counted pair for each |
| JsonReading.PieceFits | src/cJSON.c:550-705 | one piece of the second scan writes no more than the characters it passes before the quote less the pairs the first scan counted there, even when a `\u` has bad digits and swallows six characters |
| JsonReading.UnescapeFits | src/cJSON.c:722-812 | the size computed by the first scan is enough for everything the second scan writes, for every literal, although the two scans may disagree on where escapes start |
| JsonReading.ReadValue | src/cJSON.c:1222-1274 | a parsed value ends after where it started and before the terminator; a failure position is inside the buffer |
| JsonReading.ReadText | src/cJSON.c:1010-1087 | success ends inside the text, at its terminator when the whole text is required; failure reports a position inside the text; what is accepted is settled by JsonExact.AcceptedExactly |
| JsonReading.WholeTextKept | src/cJSON.c:708-834 | a literal that scans and unescapes is kept whole if and only if the second scan meets no `\u0000` and no `\u` with a bad digit |
| JsonReading.BadDigitsEndString | src/cJSON.c:550-584 | two concrete literals, one with bad digits and one with `\u0000` before a letter, read as the empty string |
| JsonAcceptance.NumeralRead | src/cJSON.c:276-350 | every number of RFC 8259, section 6, of at most 63 characters is read whole; a longer one is cut inside it and stops the reading |
| JsonAcceptance.CharsRead | src/cJSON.c:708-834 | the characters of every string of RFC 8259, section 7, whatever mixture of escapes spells them, scan to their closing quote and unescape to their UTF-8 bytes if and only if none is an escape for half of a surrogate pair; otherwise unescaping fails |
| JsonAcceptance.HalfRefused | src/cJSON.c:587-705 | half of a surrogate pair is refused whatever follows it, unless what follows completes the pair |
| JsonAcceptance.ValueRead | src/cJSON.c:1222-1274 | every value of the grammar, with any white space inside, read in front of anything that cannot prolong it gives its meaning, or fails when it holds half of a pair or exceeds the limits |
| JsonAcceptance.TextRead | src/cJSON.c:1010-1087 | every text of RFC 8259 is read to its end if and only if it nests at most 1000 deep, its numbers have at most 63 characters and no string holds half of a surrogate pair; it is then read as what it means with strings cut at the first NUL, and otherwise parsing the whole text fails |
| JsonAcceptance.TextMeans | src/cJSON.c:1010-1087 | it has a meaning and is read as exactly that if and only if, besides, none of its strings holds the character 0 |
| JsonAcceptance.HalfOfPair | src/cJSON.c:587-705 | a concrete text of the grammar, half of a pair on its own, that is refused |
| JsonConverse.StringDerived | src/cJSON.c:708-834 | whatever literal is accepted is cut by its first unescaped quote and goes through as characters and escapes, a `\u` with any four bytes standing for character 0 when they are not hexadecimal, and yields the C string they stand for |
| JsonConverse.NumberDerived | src/cJSON.c:276-350 | whatever number is accepted is a minus or nothing, digits with at most one point, and an exponent or nothing, at most 63 characters, and is kept as they are |
| JsonConverse.ValueDerived | src/cJSON.c:1222-1274 | whatever value is accepted is spelled by exactly the text passed, as the dialect spells it, and is what that text stands for |
| JsonConverse.AcceptedIsDialect | src/cJSON.c:1010-1087 | whatever text is accepted is a text of the dialect up to where the reading ended, behind a byte order mark or nothing, and the tree is what it stands for; asked for a whole text, nothing is left out |
| JsonExact.NumberRead | src/cJSON.c:276-350 | every number of the dialect of at most 63 characters is read whole in front of anything that cannot prolong it |
| JsonExact.LiteralRead | src/cJSON.c:708-834 | every literal of the dialect, raw control bytes and bad digits included, is read to its end as the string it is for |
| JsonExact.ValueExact | src/cJSON.c:1222-1274 | every value of the dialect that nests within the limit is read to its end as what it stands for |
| JsonExact.PrefixRead | src/cJSON.c:1010-1087 | not asked for a whole text, the parser reads such a value in front of anything but more of a number |
| JsonExact.AcceptedExactly | src/cJSON.c:1010-1087 | a text is accepted whole, as a tree, if and only if it is a text of the dialect that nests at most 1000 deep and stands for that tree: everything malformed is refused |
| JsonExact.Settled | src/cJSON.c:1010-1087 | so a text stands for one tree at most, and a text that stands for none is refused |
| JsonParser.ParseBuffer.BufferSkipWhitespace | src/cJSON.c:973-991 | the offset becomes the first visible byte, stepping back from the end of the buffer |
| JsonParser.ParseBuffer.SkipUtf8Bom | src/cJSON.c:994-1007 | a leading byte order mark is passed when more than four bytes are there |
| JsonParser.ParseBuffer.CopyNumber | src/cJSON.c:290-324 | copies the run of number characters, at most 63 of them |
| JsonParser.ParseBuffer.ParseNumber | src/cJSON.c:276-350 | takes the part of the run that `strtod` consumes, and fails at the same offset when that is nothing |
| JsonParser.ParseBuffer.ScanLiteral | src/cJSON.c:722-756 | finds the closing quote, skipping escape pairs, and counts the pairs; fails exactly when there is none |
| JsonParser.ParseBuffer.ParseString | src/cJSON.c:708-834 | yields the C string of the unescaped bytes and the offset after the quote, or fails at the offset the reading fails at |
| JsonParser.UnescapeSequence | src/cJSON.c:773-812 | one escape writes exactly its bytes after what was written, or consumes 0 when it is not an escape |
| JsonParser.UnescapeLiteral | src/cJSON.c:745-822 | the second scan never writes past the allocation of the first scan's size, and leaves the C string of the unescaped bytes |
| JsonParser.ParseBuffer.ParseValue | src/cJSON.c:1222-1274 | agrees with the reading on tree, end offset and failure offset, restores the depth on success, terminates on every input |
| JsonParser.ParseBuffer.ParseArray | src/cJSON.c:1351-1442 | agrees with the reading; refuses the 1001st level |
| JsonParser.ParseBuffer.ParseItems | src/cJSON.c:1374-1437 | the loop, despite stepping its offset back before the first element, reads exactly the comma-separated elements and stops on the bracket |
| JsonParser.ParseBuffer.ParseMember | src/cJSON.c:1556-1592 | key, colon and value as they are read, with the reading's failure offsets; anything but a colon is refused, as JsonConverse.ValueDerived proves of the reading |
| JsonParser.ParseBuffer.ParseObject | src/cJSON.c:1507-1613 | agrees with the reading; refuses the 1001st level |
| JsonParser.ParseBuffer.ParseMembers | src/cJSON.c:1535-1601 | the loop reads exactly the comma-separated members and stops on the brace |
| JsonParser.ParseWithOpts | src/cJSON.c:1010-1087 | for every NUL-free text: terminates, reads inside the buffer, ends or fails at a position inside the text; a whole text is accepted if and only if it is a text of the dialect within the limits, and yields the tree it stands for |
| JsonRoundTrip.EscapedBack | src/cJSON.c:837-956 | an escaped string scans to its own closing quote and unescapes to itself |
| JsonRoundTrip.StringBack | src/cJSON.c:837-956 | a printed string reads back as itself wherever it stands |
| JsonRoundTrip.NumberBack | src/cJSON.c:276-350 | a number's text reads back whole when the next character cannot prolong it |
| JsonRoundTrip.ValueBack | src/cJSON.c:1222-1274 | a printed tree read inside any text gives the tree, NaN and infinities turned into null, and ends where its text ends; past the nesting limit it is refused |
| JsonRoundTrip.ItemsBack | src/cJSON.c:1351-1442 | the same for the elements of an array, by induction along the list |
| JsonRoundTrip.MembersBack | src/cJSON.c:1507-1613 | the same for the members of an object, with their indentation, tabs and line breaks |
| JsonRoundTrip.TextNulFree | src/cJSON.c:1277-1348 | printed text holds no NUL, so it is a C string |
| JsonRoundTrip.ParsePrinted | src/cJSON.c:1090-1093 | what parsing makes of every well-formed tree's print, formatted or not: the finite tree with the whole text consumed, or failure beyond 1000 levels |
| JsonRoundTrip.RoundTrip | src/cJSON.c:1277-1348 | print then parse gives the same tree if and only if it holds no NaN or infinity and nests at most 1000 deep |
| JsonRoundTrip.AcceptedAdmissible | src/cJSON.c:1351-1359 | whatever the text, an accepted tree nests at most 1000 deep and all its strings and keys are C strings |
| JsonPrinter.PrintBuffer.Ensure | src/cJSON.c:383-468 | grants exactly the requests that fit the caller's buffer, or INT_MAX when growing, and keeps what was printed |
| JsonPrinter.PrintBuffer.UpdateOffset | src/cJSON.c:471-481 | moves the offset to the terminator of the text just printed |
| JsonPrinter.PrintBuffer.PrintNumber | src/cJSON.c:484-547 | succeeds exactly when the text and two bytes fit, and then appends it |
| JsonPrinter.PrintBuffer.CountEscapes | src/cJSON.c:851-883 | the extra characters escaping needs |
| JsonPrinter.PrintBuffer.PrintStringPtr | src/cJSON.c:837-956 | succeeds exactly when the quoted text and two bytes fit, and then the buffer ends in it |
| JsonPrinter.PrintBuffer.WriteEscaped | src/cJSON.c:908-951 | the escaping copy writes exactly the escaped bytes and nothing past the computed length |
| JsonPrinter.PrintBuffer.PrintValue | src/cJSON.c:1277-1348 | appending a tree's text succeeds exactly when the text and two more bytes fit the capacity, in both buffer modes, and leaves an untouched prefix |
| JsonPrinter.PrintBuffer.PrintArray | src/cJSON.c:1445-1504 | the same for an array, bracket by bracket |
| JsonPrinter.PrintBuffer.PrintElements | src/cJSON.c:1467-1493 | the element loop appends the elements' text or fails only for lack of room |
| JsonPrinter.PrintBuffer.PrintObject | src/cJSON.c:1616-1727 | the same for an object, with its indentation |
| JsonPrinter.PrintBuffer.PrintMembers | src/cJSON.c:1643-1706 | the member loop appends the members' text or fails only for lack of room |
| JsonPrinter.PrintPreallocated | src/cJSON.c:1202-1219 | succeeds if and only if the buffer has at least the text's length plus two bytes, and then holds the text and its terminator |
| JsonPrinter.Print | src/cJSON.c:1097-1170 | a fresh allocation holding exactly the same text and its terminator |
| JsonPrinter.PrintBuffered | src/cJSON.c:1172-1200 | the same text for every non-negative first guess of the size |
| JsonLayout.ShortEscapes | src/cJSON.c:908-945 | quote, backslash and the five control characters that have a letter are printed as backslash and letter |
| JsonLayout.LongEscapes | src/cJSON.c:946-951 | every other control character is printed as `\u00` and two lower-case digits, and every other character as itself |
| JsonLayout.ArrayLayout | src/cJSON.c:1445-1504 | elements stand on one line between brackets, with a comma between them and, when formatted, a space after it |
| JsonLayout.ObjectLayout | src/cJSON.c:1616-1727 | formatted members stand on lines of their own, indented by a tab for each level, with a tab after the colon, and the brace under the line that opened the object |
| JsonLayout.CompactLayout | src/cJSON.c:1616-1727 | unformatted members are separated by commas alone |
| JsonLayout.PlainQuoted | src/cJSON.c:837-906 | text without quotes, backslashes and control characters is printed as it is, between quotes |
| JsonLayout.AtomLayout | src/cJSON.c:1277-1348 | the words, NaN and the infinities as `null`, and a number as its text |
| JsonMinify.MinifiedIdempotent | src/cJSON.c:2692-2738 | minifying twice is minifying once, on every text |
| JsonMinify.MinifyString | src/cJSON.c:2670-2690 | copies a string down, recognising only a backslash right before a quote as an escape |
| JsonMinify.SkipOnelineComment | src/cJSON.c:2643-2654 | passes a `//` comment and its line end, or everything |
| JsonMinify.SkipMultilineComment | src/cJSON.c:2656-2668 | passes a `/*` comment, or everything |
| JsonMinify.Minify | src/cJSON.c:2692-2738 | in place on every text: never longer, write position never past read position, nothing beyond the terminator touched, the result as specified |
| JsonMinifyPrint.MinifyFormatted | src/cJSON.c:2692-2738 | the formatted print minifies to the unformatted print if and only if no string or key that ends in a backslash is followed by anything but closing square brackets |
| JsonMinifyPrint.NoFinalBackslashSuffices | src/cJSON.c:2684-2687 | in particular whenever no string and no key ends in a backslash |
| JsonMinifyPrint.BackslashThenElement | src/cJSON.c:2684-2687 | a concrete tree on which the law fails |
| JsonMinifyPrint.MinifiedValue | src/cJSON.c:1445-1504 | what the minifier makes of a printed value inside a larger text, for each of the three places it may believe itself to be |
| JsonMinifyMeaning.LiteralLaw | src/cJSON.c:2670-2690 | in step a literal is copied, and leaves the minifier out of step exactly when it ends in an escaped backslash; out of step it is copied if and only if no space and no slash comes before its first escaped quote, which puts the minifier back in step |
| JsonMinifyMeaning.MinifiedExactly | src/cJSON.c:2692-2738 | for any tokens met in step or out of step, the minified text is the text without its white space if and only if the scan of the tokens finds no white space to keep and no character to drop |
| JsonMinifyMeaning.MinifiedIsCompact | src/cJSON.c:2692-2738 | every text of RFC 8259 loses its white space and nothing else if and only if that scan of its tokens, started in step, finds nothing amiss |
| JsonMinifyMeaning.UnmistakenIsCompact | src/cJSON.c:2692-2738 | in particular when no string and no key ends in an escaped backslash |
| JsonMinifyMeaning.BackslashAlone | src/cJSON.c:2684-2687 | a concrete text with such a string on which the law still holds |
| JsonMinifyMeaning.SpaceKept | src/cJSON.c:2684-2687 | a concrete text whose white space is kept, which does the parser no harm |
| JsonMinifyMeaning.MinifyingKeepsReading | src/cJSON.c:2692-2738 | a text of RFC 8259 parses to the same tree before and after minifying, or fails both times, whenever no character of a literal is dropped |
| JsonMinifyMeaning.StringJoined | src/cJSON.c:2684-2687 | a concrete text, an array of two strings, that parses to another tree after minifying |
| JsonMinifyMeaning.HiddenLoss | src/cJSON.c:2684-2687 | a concrete text that loses a character the parser never reads, so that condition is not necessary |
| JsonMinifyComments.CommentDropped | src/cJSON.c:2643-2668 | a line comment with its line end, or a block comment with its marks, is dropped and nothing behind it |
| JsonMinifyComments.UnclosedDropsAll | src/cJSON.c:2643-2668 | a comment that is not closed takes the rest of the text with it |
| JsonMinifyComments.CommentsDropped | src/cJSON.c:2692-2738 | comments anywhere between the tokens of a text, when no literal ends in an escaped backslash: minifying is minifying without them |
| JsonMinifyComments.CommentedIsCompact | src/cJSON.c:2692-2738 | so a text of RFC 8259 with comments put between its tokens minifies to itself without white space |
| JsonCompare.GetObjectItem | src/cJSON.c:1782-1812 | the first member whose key matches under the case rule, or none |
| JsonCompare.SameKey | src/cJSON.c:104-127 | keys match if and only if they are equal or, case not mattering, equal but for the case of ASCII letters |
| JsonCompare.Compare | src/cJSON.c:2840-2963 | the C comparison decides `Same` |
| JsonCompare.CompareMembers | src/cJSON.c:2917-2957 | one direction of the object comparison: every member has an equal one on the other side |
| JsonCompare.Symmetric | src/cJSON.c:2840-2963 | comparison is symmetric on all trees |
| JsonCompare.Transitive | src/cJSON.c:2840-2963 | comparison is transitive on all trees, repeated keys included |
| JsonCompare.Reflexive | src/cJSON.c:2840-2963 | any tree equals its copy if and only if it holds no NaN and in every object each value compares equal to the first value under its key |
| JsonCompare.SameExactly | src/cJSON.c:2840-2963 | any two trees compare equal if and only if both are consistent in that sense and they have the same meaning, an object meaning a key-to-value map |
| JsonCompare.DistinctReflexive | src/cJSON.c:2840-2963 | with pairwise distinct keys a tree equals its copy if and only if it holds no NaN |
| JsonCompare.RepeatedKeyDiffers | src/cJSON.c:2917-2957 | a concrete tree without NaN, one key with two values, that differs from its copy |
| JsonCompare.RepeatedValueSame | src/cJSON.c:2917-2957 | a concrete tree with a repeated key that equals its copy |
| JsonCompare.SameMeaning | src/cJSON.c:2840-2963 | with pairwise distinct keys and no NaN, comparing equal is having the same meaning |
| JsonCompare.OrderImmaterial | src/cJSON.c:2917-2957 | an object equals its members in any other order if and only if it equals its own copy |
| JsonList.GetArrayItem | src/cJSON.c:1753-1770 | the element at the index, or NULL past the end |
| JsonList.AddItemToArray | src/cJSON.c:1858-1885 | the children become the old ones and the item, linked both ways |
| JsonList.DetachItem | src/cJSON.c:2085-2113 | the children lose exactly that item, which ends up unlinked |
| JsonList.InsertItem | src/cJSON.c:2155-2182 | the children gain the item at the index, at the end past the last index, not at all below 0 |
| JsonList.ReplaceItem | src/cJSON.c:2184-2217 | the item is replaced in place and ends up unlinked; replacing an item by itself changes nothing |
| JsonList.DetachThenInsert | src/cJSON.c:2085-2182 | detaching an item and inserting it at the same index restores the list |
| JsonList.Duplicate | src/cJSON.c:2564-2641 | a copy with the same shape, all of whose nodes are fresh, properly linked all the way down; without recursion only the node |
| JsonBuild.LinkNext | src/cJSON.c:1390-1402 | the next node goes behind the last child, linked both ways, or starts the list; what is below the children stays as it is |
| JsonBuild.LinkItems | src/cJSON.c:1374-1437 | the children of an array are fresh nodes linked in the order of its elements, each standing for its element |
| JsonBuild.LinkMembers | src/cJSON.c:1535-1601 | the same for an object's members, with their keys |
| JsonBuild.Link | src/cJSON.c:1222-1274 | the nodes of a value: fresh, shared by nothing, linked properly all the way down, in the shape of the value |
| JsonBuild.ShapeStands | src/cJSON.c:1222-1274 | the shape of the nodes determines the value: no part of a tree is lost in them |
| JsonBuild.ParseNodes | src/cJSON.c:1010-1087 | parsing into nodes succeeds exactly when the reading does, and then the nodes stand for the tree read |
| Sha256.MajorityShortcut | src/aiot_mqtt_sign.c:201-202 | the macro for the majority function is the standard's function |
| Sha256.ChoiceShortcut | src/aiot_mqtt_sign.c:201-202 | the macro for the choice function is the standard's function |
| Sha256.Step | src/aiot_mqtt_sign.c:210-215 | one macro step and the register rotation are one round of FIPS 180-4, section 6.2.2 |
| Sha256.RunRounds | src/aiot_mqtt_sign.c:227-245 | the 64 steps with the schedule computed on the fly are the 64 rounds with the full schedule; the constants they add are those of Sha256Constants.RoundConstants |
| Sha256.Context.Process | src/aiot_mqtt_sign.c:217-250 | the block function is the compression function on every state and block |
| Sha256.Context.Update | src/aiot_mqtt_sign.c:251-287 | keeps the invariant that ties registers, partial block and byte count to the bytes consumed, for every chunk |
| Sha256.Carry | src/aiot_mqtt_sign.c:263-268 | the wrapped sum and its carry are the two words of the true count |
| Sha256.BitLength | src/aiot_mqtt_sign.c:302-304 | the two words of the bit length, from the two words of the byte count, below 2^61 bytes |
| Sha256.PaddingParts | src/aiot_mqtt_sign.c:309-313 | the padding fed to the context is the padding of FIPS 180-4, section 5.1.1 |
| Sha256.Context.Finish | src/aiot_mqtt_sign.c:296-326 | writes the FIPS 180-4 digest of everything consumed |
| Sha256.Sha256 | src/aiot_mqtt_sign.c:328-337 | the one-call form gives the digest |
| Sha256.Sha256OfChunks | src/aiot_mqtt_sign.c:251-326 | however a message below 2^61 bytes is cut into chunks, the digest is that of the whole message |
| Sha256.HmacSha256 | src/aiot_mqtt_sign.c:339-379 | HMAC of RFC 2104, section 2, for every key of at most 64 bytes; longer keys, which the RFC hashes first, leave the output as it was |
| Sha256.HashPrefix | src/aiot_mqtt_sign.c:278-282 | blocks already hashed are unaffected by what follows |
| Sha256Constants.RoundConstants | src/aiot_mqtt_sign.c:173-190 | each of the 64 round constants is the first 32 bits of the fraction of the cube root of the prime at its place (FIPS 180-4, section 4.2.2): the `t`-th has exactly `t` primes below it |
| Sha256Constants.InitialValue | src/aiot_mqtt_sign.c:160-167 | each of the eight initial words is that of the square root of the prime at its place (section 5.3.3) |
| Sha256Constants.RotatedBack | src/aiot_mqtt_sign.c:192-199 | every rotation of section 4.1.2 is undone by a rotation to the left by as much |
| Sha256Constants.AddIs | src/aiot_mqtt_sign.c:204-215 | addition of words is that of numbers modulo 2^32, by its two defining laws |
| Sha256Constants.Shifted | src/aiot_mqtt_sign.c:192-195 | the two shifts divide by 8 and by 1024 |
| Sha256Constants.BigEndianWords | src/aiot_mqtt_sign.c:99-118 | a word is read with its most significant byte first and written so that it reads back |
| Sha256Constants.PaddedExample | src/aiot_mqtt_sign.c:296-313 | the message that section 5.1.1 of FIPS 180-4 pads is padded as it shows |
| MqttSign.Append | src/aiot_mqtt_sign.c:52-75 | appending at the terminator keeps a fixed buffer a string |
| MqttSign.Fits | src/aiot_mqtt_sign.c:38-75 | the longest accepted names leave room for the terminator in all four buffers |
| MqttSign.AiotMqttSign | src/aiot_mqtt_sign.c:36-85 | accepts exactly names of at most 20 and 32 bytes and secrets of at most 64, and then `deviceName&productKey` with the signing parameters, the same without, and the hexadecimal signature are in the caller's buffers; otherwise nothing changes |
| MqttSign.PasswordSigns | src/aiot_mqtt_sign.c:25-34 | the password reads back as the HMAC, under the secret, of client id, names and the time that the client id gives |
| Crc.TableEntry | src/crc.c:2-44 | all 512 table bytes are the halves of eight shifts of their index |
| Crc.TableStep | src/crc.c:56-58 | one table-driven turn equals eight bit-at-a-time shifts |
| Crc.ModbusCrc16 | src/crc.c:48-61 | on every message the table-driven CRC is the bit-at-a-time CRC with polynomial 0xA001 and initial value 0xFFFF |
| Crc.CheckedIffCrc | src/statusquery.c:137-140 | a message followed by two bytes checks to 0 if and only if they are its CRC, low byte first |
| Crc.BurstDetected | src/crc.c:48-61 | two messages of equal length that differ only inside two adjacent bytes never share a CRC |
| Crc.CheckValue | src/crc.c:48-61 | the CRC of the nine characters `123456789` is 0x4B37, its published check value |
| Modbus.Compose | src/mqtt.c:520-532 | the frame filled in byte by byte |
| Modbus.FrameRoundTrip | src/statusquery.c:128-140 | a device reads back address, function and both fields modulo their widths, and the frame checks to 0 |
| Modbus.DamageDropped | src/statusquery.c:137-140 | a frame damaged inside two adjacent bytes is dropped |
| Modbus.CommandFrame | src/mqtt.c:520-532 | the documented frame that writes 1 into register 2 of device 1, byte for byte |
| Modbus.QueryFrame | src/statusquery.c:224-240 | the documented frame that reads two registers of device 2, byte for byte |
| ModbusDevice.FrameFields | src/statusquery.c:126-140 | a device finds the CRC in place and reads the four fields, high byte first |
| ModbusDevice.ReadReturns | src/statusquery.c:126-140 | the gateway's query makes the device it addresses return exactly the registers meant (function code 3 of section 6.3) and no device set any |
| ModbusDevice.WriteSets | src/mqtt.c:520-532 | the gateway's command makes the device it addresses, or every device for address 0, set exactly that register to that value (function code 6 of section 6.6) |
| LoraMessage.Hex2Ascii | src/statusquery.c:258-270 | two characters a byte and a terminator, for signed and unsigned `char` |
| LoraMessage.HexBack | src/statusquery.c:258-270 | the characters read back as the bytes if and only if `char` is unsigned or no byte has its top bit set; otherwise they are not hexadecimal |
| LoraMessage.CommandExample | src/statusquery.c:250-256 | the documented command frame is converted to the documented text |
| LoraMessage.QueryExample | src/statusquery.c:155-163 | the frame of the documented message is converted to the text documented for it |
| LoraMessage.ItemNamedIsFirst | src/cJSON.c:1782-1812 | the item named is the first whose key is exactly that, case sensitive, or none |
| LoraMessage.MessageDelivers | src/statusquery.c:164-211 | the network server takes from a composed message the frame, the node named, port 2 and immediate sending, under that same condition, and the device reads what the frame says |
| LoraMessage.RequestArrives | src/statusquery.c:126-152 | every request composed, printed, parsed and decoded arrives as it was meant, unless `char` is signed and a byte of its frame has the top bit set; then nothing arrives |
| LoraMessage.MessageFits | src/statusquery.c:147-148 | the message fits the 1024-byte buffer for every frame and every node name of fewer than 64 bytes |
| LoraMessage.ConstructJsonText2Lora | src/statusquery.c:164-211 | leaves the formatted JSON text in the buffer |
| SwitchIndex.PlcNode.Record | src/parse_switch.c:191-228 | one definition turns the index of the definitions so far into the index of those and this one; SwitchIndex.BitmapsTell says outright which register that marks |
| SwitchIndex.IndexedMore | src/parse_switch.c:208-228 | marking a register and widening first and last by it accounts for one more definition of that width |
| SwitchIndex.Registry.GetPlcNode | src/parse_switch.c:71-82 | the node with the address, or none when there is none |
| SwitchIndex.Registry.GetSwitchNode | src/parse_switch.c:43-54 | the last definition with the name |
| SwitchIndex.SwitchNamedIsLast | src/parse_switch.c:36-54 | the definition found is the last of that name |
| SwitchIndex.NameAtIsLast | src/parse_switch.c:206 | the name kept for a register is that of the last definition that uses it, whatever its width |
| SwitchIndex.AddressesUsed | src/parse_switch.c:171-188 | the addresses of the nodes are exactly the PLCs the definitions use |
| SwitchIndex.Registry.AddSwitch | src/parse_switch.c:138-228 | keeps: one node for every PLC used and no other, in order of first use from the back, bitmaps marking exactly its registers of that width, first and last their extremes, the names the last ones |
| SwitchIndex.Registry.ReadSwitches | src/parse_switch.c:138-230 | after loading any sequence of definitions the registry holds exactly them; what that means for each register is SwitchIndex.BitmapsTell and SwitchIndex.NamesTell |
| SwitchIndex.BitmapsTell | src/parse_switch.c:191-228 | of the loaded bitmaps: a register is marked if and only if a definition of that PLC and width has it as its read-only channel, or has no read-only channel and has it as its channel |
| SwitchIndex.NamesTell | src/parse_switch.c:191-206 | of the loaded names: a register bears the name of the last definition of the PLC that so uses it |
| StatusQuery.QueryRegisters | src/statusquery.c:50-82 | the three nested loops send exactly the planned reads, in order, as frames; that a device returns those registers and sets none is ModbusDevice.ReadReturns |
| StatusQuery.PlanCovers | src/statusquery.c:54-81 | the reads are non-empty, ascending, disjoint, of at most ten configured registers, and cover exactly the configured ones |
| StatusQuery.ReadOnce | src/statusquery.c:54-81 | no register is read twice |
| StatusQuery.GreedyReachesFurthest | src/statusquery.c:57-63 | no allowed read that covers a register ends later than the read the planner starts there |
| StatusQuery.NoneShorter | src/statusquery.c:54-81 | no other choice of reads of at most ten configured registers covers them with fewer requests |
| StatusSweep.SweepNodes | src/statusquery.c:41-124 | everything one sweep sends: node by node, PLC by PLC, one-byte registers before two-byte ones |
| StatusSweep.AskedOfPlc | src/statusquery.c:50-124 | of the frames for one PLC, a device at any address reads as many as asking for a register as there are widths that use it there, if the low bytes of the addresses agree, and none otherwise |
| StatusSweep.LoopEachLoraEachPlcEachSwitch | src/statusquery.c:41-152 | from the definitions to the frames: a whole sweep leaves the registers of every device as they were; how many of its queries a device at any address behind any LoRa node answers with any register; and that a register defined for it is returned exactly once if and only if the node is listed once and no other definition uses the register, in the other width or at an address with the same low byte |
| SweepOrder.SweepInOrder | src/statusquery.c:41-124 | the queries of a whole sweep stand in strictly ascending places: by LoRa node, then PLC, then width, then register, each reading registers configured there, from its place on |
| StatusSweep.UseIsOnly | src/statusquery.c:41-124 | the loaded PLCs use a register once, over both widths and all addresses with one low byte, if and only if one definition's width and address do |
| StatusSweep.AskedTwice | src/statusquery.c:41-152 | two concrete sets of definitions, one register in both widths and one register at two addresses with one low byte, for which a device is asked twice |
| StatusSweep.LoadedReflects | src/parse_switch.c:138-230 | the loaded index is what the planner needs and marks exactly the registers defined |
| MsgQueue.Queue.EnQ | src/wsclient.c:62-114 | the queue gains the message at its head or its tail |
| MsgQueue.Queue.DeQ | src/wsclient.c:121-144 | the first message leaves a non-empty queue; an empty one is left alone and no node is handed out |
| WsProtocol.OrdinaryFifo | src/wsclient.c:89-110 | in every history of the queue ordinary messages leave in the order they arrived, whatever priority messages do |
| WsProtocol.Conserved | src/wsclient.c:62-144 | in every history the messages taken and queued are those that arrived, as often as they arrived |
| WsProtocol.InitialInv | src/wsclient.c:51-52 | the invariant holds at the start |
| WsProtocol.WriterMemoryKept | src/wsclient.c:86-113 | each access of a writer inside the mutex leads from one intended shape of the linked memory to the next |
| WsProtocol.CallbackMemoryKept | src/wsclient.c:121-144 | each access of the websocket thread inside the mutex moves on, or takes the first message of a non-empty queue |
| WsProtocol.HeadTells | src/wsclient.c:280 | the unlocked look at the head pointer never misses a queued message |
| WsProtocol.StepKeeps | src/wsclient.c:62-144 | every step of every thread and of the library keeps the invariant |
| WsProtocol.Safety | src/wsclient.c:264-329 | over every interleaving of any number of writers with the websocket thread: no null or freed node is followed, nothing is taken from an empty queue, no message is lost or delivered twice, ordinary messages stay in order, and a queued message always has a wake-up coming; what priority does to the order is WsProtocol.Overtakes |
| WsProtocol.Overtakes | src/wsclient.c:86-113 | over every run: a priority message that enters the queue is written before every message queued at that moment, an ordinary one after them, and either after what had been taken out, whatever happens later |
| WsProtocol.Drains | src/wsclient.c:278-297 | once the writers are done, the requests already made lead to every queued message being written, in queue order |
| WsProtocol.AllWritten | src/wsclient.c:62-329 | from every reachable state, with any number of writers in flight, some run that begins no new message ends with every message ever begun written exactly once and the mutex free |
| WsProtocol.PlainFifo | src/wsclient.c:86-144 | in every run without priority messages, what was written, is in hand and is queued is exactly what arrived, in order |
| HubMessage.GetItemNamed | src/cJSON.c:1782-1812 | the value of the first member with the key, case sensitive |
| HubMessage.CollectSwitches | src/mqtt.c:191-224 | the serial number is the last one given; the list holds the commanded switches with their values, last one first |
| HubMessage.SerialIsLast | src/mqtt.c:199-201 | the node addressed is the last serial number of the message, or the empty one when it has none |
| HubMessage.CommandsAsked | src/mqtt.c:191-224 | there are as many commands as parameters that bear a switch's name, in their order; each has the PLC and channel of the last definition of the name and asks for the number's integer value, ten times the value for `waterFertilizerPressure`, and for anything but a number what the definition held |
| HubMessage.ComposeCommand | src/mqtt.c:520-546 | the message for one command, composed in the fixed buffers |
| HubMessage.RunCommandOnLoraNode | src/mqtt.c:512-551 | inserting a backwards list at the head leaves the commands in order before the old queue |
| HubMessage.ProcessSingleIotHubMsg | src/mqtt.c:170-234 | the queue afterwards is the known-switch commands in the order of the JSON members, then the old queue; messages without parameters or that do not parse change nothing |
| HubMessage.CommandsArrive | src/mqtt.c:512-551 | every queued command reaches its device as the write the message asked for, unless `char` is signed and a byte of its frame has the top bit set; then nothing does |
| HubMessage.CommandObeyed | src/mqtt.c:512-551 | what the network server takes from a queued command goes to the message's node and makes the device at the switch's address, and no other, set the switch's register to the value asked for, unless `char` is signed and a byte of the frame has the top bit set |
| Dictionary.DictionaryHash | src/dictionary.c:118-137 | the hashing loop computes the hash the slots are compared by |
| Dictionary.HashOfLetter | src/dictionary.c:118-137 | the hash of `a` is 0xCA2E9442, the value published for this function |
| Dictionary.Dict.constructor | src/dictionary.c:150-166 | an empty map in at least 128 slots |
| Dictionary.Dict.FindSlot | src/dictionary.c:265-280 | the slot that holds the key, or none exactly when no slot does |
| Dictionary.Dict.Get | src/dictionary.c:209-227 | lookup in the map, with the default for absent keys only |
| Dictionary.Dict.Grow | src/dictionary.c:68-101 | twice the slots, the same map |
| Dictionary.Dict.FreeSlot | src/dictionary.c:289-294 | the wrap-around search from `n` terminates in an empty slot |
| Dictionary.Dict.Set | src/dictionary.c:255-301 | the map with that key set, NULL values included; slots double exactly when a new key meets a full table |
| Dictionary.Dict.Unset | src/dictionary.c:314-349 | the map without that key |
| Dictionary.EntriesFilled | src/dictionary.c:295-299 | filling an empty slot adds one entry and raises the count of occupied slots by one |
| Dictionary.EntriesEmptied | src/dictionary.c:340-347 | emptying a slot removes one entry and lowers the count by one |
| Dictionary.Perform | src/dictionary.c:209-349 | after any sequence of sets and unsets on a new dictionary, lookups agree with the finite map those operations describe |

## Left out

- JsonRoundTrip.RoundTrip: does not model the conversion between doubles and text, so it takes for granted that a number's text is reread in full by `strtod`; the double, its rounding and the overflow of a long literal to infinity are not part of it.
- JsonParser.ParseWithOpts: gives the tree as a value; its nodes are linked by JsonBuild.ParseNodes, after the reading and not during it. Not modelled are the freeing of the nodes of a text that fails, allocation failure, a NULL text and the locale's decimal point.
- JsonParser.ParseBuffer.ParseNumber: keeps the text `strtod` consumes; the double, its saturated integer and the locale's decimal point are not modelled.
- JsonParser.ParseBuffer.ParseValue: the tree is a value; its nodes are made by JsonBuild.Link.
- JsonParser.ParseBuffer.ParseArray: the child list built while parsing is a sequence; it is linked by JsonBuild.LinkItems.
- JsonParser.ParseBuffer.ParseItems: the linking of each new item behind the last is JsonBuild.LinkNext, not part of this loop.
- JsonParser.ParseBuffer.ParseObject: the child list built while parsing is a sequence; it is linked by JsonBuild.LinkMembers.
- JsonParser.ParseBuffer.ParseMembers: the linking of each new item behind the last is JsonBuild.LinkNext, not part of this loop.
- JsonPrinter.PrintBuffer.PrintNumber: takes the number's text as given; rendering the double, by one or two `sprintf` formats, is not modelled.
- JsonPrinter.PrintBuffer.Ensure: allocation never fails, the caller's `realloc` is not told from copying, and the copy is of what the old buffer holds, while the C code copies one byte past the offset, even out of an empty allocation.
- JsonCompare.Compare: works on trees as values, so the shortcut for comparing a node with itself is not modelled; the double behind a number's text is a parameter.
- JsonList.Duplicate: keeps everything in a node but its links as one unchanging payload; raw nodes, reference and constant-key flags, allocation failure and `cJSON_Delete` are not modelled.
- JsonList.ReplaceItem: the old item is left unlinked; that the C code then frees it is not modelled.
- JsonPrinter.Print: allocation never fails, and the final `realloc` and the final copy are one.
- JsonPrinter.PrintBuffered: a first guess of 0 is modelled as an empty buffer that grows like any other; the byte the copying growth then reads past it is not.
- JsonMinifyMeaning.MinifyingKeepsReading: the condition is sufficient and not necessary (JsonMinifyMeaning.HiddenLoss); when a character is dropped, a comment that starts in one literal may swallow others, and whether the rest then happens to read the same is not settled.
- JsonBuild.Link: links a tree already read, where the C code links a node before it fills it in; each node's strings are part of its payload.
- JsonGrammar: whether unescaped bytes are UTF-8 is not asked.
- JsonMinify.Minify: a NULL text is not modelled.
- Sha256.Context.Update: a chunk is shorter than 2^32 bytes, as its C length is; the unused SHA-224 flag is not modelled.
- MqttSign.AiotMqttSign: NULL arguments are not modelled.
- Modbus.Compose: stands for the two places that fill in a frame; reading a reply is not modelled, because the reply code holds fixed test data and an operator slip that leave no settled behaviour.
- SwitchIndex.PlcNode.Record: a name is a value, so its allocation of `strlen` bytes, into which one byte more is copied, is not modelled.
- SwitchIndex.Registry.AddSwitch: requires the register in 0 to 1024, because the C code indexes its arrays with it unchecked and has no settled behaviour outside.
- SwitchIndex.Registry.ReadSwitches: requires registers in that range, and starts from definitions whose numbers and names have been taken out of the JSON; files, `strtol` and the fixed size of a name are not modelled.
- StatusSweep.LoopEachLoraEachPlcEachSwitch: the waiting between requests is not modelled, and the lists of nodes are sequences.
- HubMessage.CollectSwitches: requires a serial number that is a string of at most 31 bytes, because the C code copies it into 32 bytes unchecked and has no settled behaviour otherwise.
- HubMessage.ProcessSingleIotHubMsg: requires such a serial number too; nothing is dequeued meanwhile; the conversions of a number to an `int`, plain and ten times for the fertilizer pressure, are parameters, and a parameter that is not a number leaves whatever value the switch node holds.
- Dictionary.DictionaryHash: bytes are taken as unsigned; a NULL key or dictionary, allocation failure and the dump are not modelled.
- WsProtocol.Safety: is stated for the websocket queue; of the hub queue the polling and the handling of a message between dequeue and `free` are not separate steps. A node's number is never reused, and the payload of a message is its name.
- WsProtocol.Drains: is about what the library and the websocket thread can do when no writer is active; fairness of the scheduler is not modelled, so WsProtocol.AllWritten shows that a run to the end exists from every state, not that every run gets there.
- Sockets, libwebsockets, the MQTT client, connection setup, logging, the ini file parser and `main`: input and output, or calls into code that is not in the repository.
- The constructors, type predicates and `cJSON_Add...ToObject` wrappers: they would only add easy members.
