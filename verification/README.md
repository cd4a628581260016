# BitMail verification

A Dafny model of the parts of BitMail that take texts apart and put them together again, with
proofs that one undoes the other, and of the queue between its threads.

`dafny verify dfyconfig.toml` checks everything. Bytes are integers from 0 to 255 and texts are
sequences of bytes. Where the code works step by step on state, the model is a class or a method
with loops, and it is proved against functions of the same module or of a module beside it;
the theorems are about these functions.

- **JSON** (`JsonValue`, `JsonOrder`, `JsonLexer`, `JsonText`, `JsonDecode`, `JsonParse`,
  `JsonStrings`, `JsonRoundTrip`, `JsonReadBack`, `JsonReader`, `JsonWriter`, `JsonCodec`,
  `JsonSettled`, `JsonGrammar`, `JsonAccepted`, `JsonRefused`, `JsonLayout`): the value tree with its order, the reader with its stack of open values, error
  list, recovery and depth counter, the styled writer with its measuring pass, and the compact
  writer. The standard is RFC 8259. `JsonText.Norm` is the normal form a value has when it was
  printed and read: integers tagged by their size, holes as null, names as they were printed.
  `JsonGrammar` has the grammar as concrete syntax trees, with the value each one stands for;
  `JsonAccepted` has the trees of everything the reader takes, with the place of every part, and
  `JsonRefused` the faults it reports. `JsonLayout` has the lines of a styled text.
- **Contacts** (`Contacts`, `Sections`): the contact map that BitMail keeps as JSON text, and the export
  and import of it together with profile, network and flags. The invariant is that
  the text either does not load or loads to a value that survives printing; it starts empty, so
  nothing can be added before an import. `core/src/jsoncpp` is a later release of the library in
  `daemon/lib`; the model uses the latter for both.
- **Recipients** (`Receips`, `TxHeader`): canonical recipient keys, the To header of a mail and the
  parser that gets the recipients back.
- **ASN.1** (`Int10Numbers`, `Asn1Numbers`, `Asn1Decode`, `Asn1Decoder`): the base 10^13 integer, the
  printers of integers and object identifiers, and the backtracking decoder. The standard is
  ITU-T X.690.
- **MIME** (`MemBio`, `MimeHeader`, `MimeLines`, `MimeParser`, `Multipart`, `MimeMessage`): the header state machine
  on its line buffer, the multipart splitter and the composers. The standards are RFC 2045 and
  RFC 2046.
- **Send queue** (`SendQueue`): the bounded buffer of two semaphores, as a class and as interleaved
  atomic steps of any number of threads.

Where the code does not do what one would expect, the code is followed:

- The styled writer prints member names through a C string, so a name with a NUL comes back cut
  (`JsonReadBack.StyledRoundTripIsExact`).
- `operator<` subtracts sizes into an int. Two containers are each less than the other exactly when
  their sizes differ by 2^31 modulo 2^32 (`JsonOrder.ObjectsUnorderedExactly`,
  `JsonOrder.ArraysUnorderedExactly`), and transitivity fails where two wrapped differences add up to
  less than -2^31 (exactly when: `JsonOrder.ArraysTransitiveExactly`,
  `JsonOrder.ObjectsTransitiveExactly`; an instance: `JsonOrder.ArraysInACircle`).
- `decodeNumber` takes a single minus sign for 0 and skips leading zeros; beside these two it accepts
  only integers of RFC 8259 (`JsonStrings.IntegersOfTheGrammar`,
  `JsonStrings.NumbersBeyondTheGrammar`).
- The reader takes more than RFC 8259 has, and exactly these things more: comments in front of member
  names and behind items and members (in front of a value only if they are allowed), behind a comment
  any one token in place of the comma between members, a brace behind a separator when the last name was
  empty, control characters in strings, a single minus sign and missing or needless digits in numbers,
  and any text behind the root (`JsonAccepted.AcceptedExactly`).
- An escaped high surrogate without an escape behind it is an error, though the grammar has it
  (`JsonGrammar.GrammarParses`, `JsonGrammar.LoneSurrogateIsRefused`).
- A contact whose value is null cannot be removed (`Contacts.BitMail.RemoveContact`,
  `Contacts.NullContactStays`).
- An import that throws in a settings section leaves the contacts alone and the settings half set
  (`Sections.ThrowsExactly`, `Contacts.BitMail.Import`).
- The decoder skips contents without looking at the stream, so truncated elements are accepted, and of
  the element that ends indefinite contents it looks at the tag only, against X.690 section 8.1.5
  (`Asn1Decode.CutOffIsAccepted`). When an element lies in the stream is `Asn1Decode.InsideExactly`.
- A quoted parameter value of one character is lost (`MimeHeader.QuotedParameter`), so a container with
  such a boundary is refused (`MimeMessage.QuotedBoundary`).
- The value of a header cannot be folded, only its parameters can (`MimeLines.FoldedValueIsLost`).
- The splitter counts boundaries in a char, so every 256th part is lost (`Multipart.NothingLost`); a
  container without parts ends in a null pointer (`MimeMessage.EmptyContainerCrashes`,
  `MimeMessage.CrashesExactly`).
- The sender thread gives permits up while no account is set up, and can get stuck
  (`SendQueue.FreshQueueGetsStuck`, `SendQueue.StuckForever`); the queue can be emptied as long as no
  permit was given up (`SendQueue.DrainedExactly`).

## Model

| member | source | states |
|---|---|---|
| JsonReader.Reader.Parse | daemon/lib/json_reader.cpp:111-151 | the result is true exactly when the document starts with a tree that is accepted (`JsonAccepted.Accepted`), and then the root is the value of that tree; after any document the cursor is inside it, only the root is left on the stack, and, unless the depth exception leaves the call, success and an empty error list are the same |
| JsonAccepted.AcceptedExactly | daemon/lib/json_reader.cpp:111-151 | for every byte string: parse returns true exactly when the bytes start, behind white space and, if they are allowed, comments, with a tree of at most 1000 levels, which is a container if it has to be; the value is that of the tree. The trees are those of RFC 8259 and the leniences listed above, and every part of a tree has its place in the bytes |
| JsonAccepted.StandsReads | daemon/lib/json_reader.cpp:153-213 | reading such a tree at any place of any document gives its value and ends behind it, with no error; one with more levels than are left ends in the exception |
| JsonAccepted.ValueStands | daemon/lib/json_reader.cpp:153-213 | what readValue accepts, at any place and depth, is such a tree, and ends where the reader does |
| JsonAccepted.TooHighThrows | daemon/lib/json_reader.cpp:158 | a tree of more than 1000 levels ends in the exception |
| JsonAccepted.StringOf | daemon/lib/json_reader.cpp:587-704 | a string token that is decoded without an error consists of characters of the grammar or control characters, with every high surrogate followed by another escape |
| JsonAccepted.NumberExactly | daemon/lib/json_reader.cpp:396-416 | a number token is a digit or a minus sign and the digits, the fraction and the exponent behind it, none of which is left out |
| JsonAccepted.CommentIsToken | daemon/lib/json_reader.cpp:317-394 | a C comment up to its first end, and a C++ comment with its line end, whether LF, CR or both, is one token |
| JsonAccepted.GapIsSkipped | daemon/lib/json_reader.cpp:215-223 | white space and comments in any order are passed over |
| JsonAccepted.CommentsExample | daemon/lib/json_reader.cpp:111-151 | a document with a comment in front of the root, one behind an item, and text behind the root: the array [1] |
| JsonRefused.FaultIsReported | daemon/lib/json_reader.cpp:111-151 | a document whose first fault is at most 1000 levels deep is refused with the error of that fault and its token: no value, no comma or bracket behind an item, no name or brace, no colon, no comma or brace behind a member, a number that is none, an escape that is none. Any other error can only say that the root is no container |
| JsonRefused.FaultReads | daemon/lib/json_reader.cpp:153-213 | the same for a value at any place, with containers around the fault and items and members in front of it |
| JsonRefused.FaultOf | daemon/lib/json_reader.cpp:153-213 | what readValue refuses, at any place and depth, has such a fault |
| JsonRefused.RefusedExactly | daemon/lib/json_reader.cpp:111-151 | for every byte string: parse returns false exactly when the document starts with a fault at most 1000 levels deep, or with a scalar although the root has to be a container; the first error in the list is that of the fault. With `JsonAccepted.AcceptedExactly` every document has a tree, or a fault, or ends in the depth exception |
| JsonRefused.CharsUpTo | daemon/lib/json_reader.cpp:587-704 | a string that is not decoded consists of characters up to a broken escape, and the error and its place are those of that escape |
| JsonRefused.LoopFails | daemon/lib/json_reader.cpp:587-704 | each broken escape has its error and the place that is reported with it: an unknown letter, too few or wrong hexadecimal digits, a high surrogate with too little or no escape behind it |
| JsonRefused.MissingCommaExample | daemon/lib/json_reader.cpp:464-468 | two values of an object with nothing between them are refused at the second one |
| JsonParse.ParseReports | daemon/lib/json_reader.cpp:111-151 | for every byte string and every feature set: success means an empty error list, failure one error, or two when the root also has to be a container and is none; the exception finds the list empty, and the cursor never leaves the document |
| JsonParse.ReadValueReports | daemon/lib/json_reader.cpp:153-213 | reading a value never removes an error; success adds none and gives the depth counter back, failure adds exactly one, the exception none |
| JsonParse.ReadObjectReports | daemon/lib/json_reader.cpp:430-478 | the same for an object, through every recovery |
| JsonParse.ReadArrayReports | daemon/lib/json_reader.cpp:480-515 | the same for an array |
| JsonReader.Reader.ReadValue | daemon/lib/json_reader.cpp:153-213 | the method on the value stack does what the function of the document does, exception at 1000 open calls included, and puts the value on top of the stack and nothing else |
| JsonReader.Reader.ReadObject | daemon/lib/json_reader.cpp:430-478 | the loop over members leaves the stack as deep as it was and the members stored one after the other in the object on top of it; a member without a comma, a comment or a brace behind it is an error, by `JsonRefused.FaultReads` |
| JsonReader.Reader.ReadMember | daemon/lib/json_reader.cpp:450-475 | a turn of that loop behind the name: colon, value and separator, with the three errors they may have |
| JsonReader.Reader.ReadArray | daemon/lib/json_reader.cpp:480-515 | the loop over items does the same for an array |
| JsonReader.Reader.ReadScalar | daemon/lib/json_reader.cpp:166-210 | a scalar token sets the value on top of the stack or reports one error, and gives the depth back except for a token that starts no value |
| JsonReader.Reader.ReadToken | daemon/lib/json_reader.cpp:225-294 | the token at the cursor and the cursor behind it, for all thirteen kinds of tokens and the error token |
| JsonReader.Reader.SkipBlanks | daemon/lib/json_reader.cpp:296-304 | the cursor stops at the first byte that is no blank |
| JsonReader.Reader.Match | daemon/lib/json_reader.cpp:306-315 | the backwards comparison succeeds exactly when the pattern stands at the cursor, and moves the cursor only then |
| JsonReader.Reader.ReadString | daemon/lib/json_reader.cpp:418-428 | the scan stops behind the first quote that no backslash precedes, or at the end |
| JsonReader.Reader.ReadNumber | daemon/lib/json_reader.cpp:396-416 | the scan takes integer, fraction and exponent as far as they go |
| JsonReader.Reader.ReadComment | daemon/lib/json_reader.cpp:317-394 | both comment forms end where the scan functions say, also when they are not closed |
| JsonReader.Reader.SkipCommentTokens | daemon/lib/json_reader.cpp:215-223 | with comments allowed the first token that is no comment, otherwise the first token |
| JsonReader.Reader.RecoverFromError | daemon/lib/json_reader.cpp:716-734 | recovery ends at the wanted token or at the end of the stream, and adds no error of its own |
| JsonReader.Reader.AddErrorAndRecover | daemon/lib/json_reader.cpp:729-734 | one error is added and the cursor is where recovery stops |
| JsonReader.Reader.AccumulateDigits | daemon/lib/json_reader.cpp:533-556 | the digits are accepted exactly when they are all digits and their exact value is within the limit; no intermediate value exceeds it, so nothing wraps |
| JsonReader.Reader.DecodeInteger | daemon/lib/json_reader.cpp:525-565 | an optional minus and digits give the exact integer in [-2^63, 2^64-1], tagged int up to 2^31-1 and uint above, and anything else falls to the double path |
| JsonStrings.IntegerRoundTrip | daemon/lib/json_writer.cpp:81-105 | decoding the numeral of any integer of the 64-bit range gives that integer back |
| JsonStrings.IntegersOfTheGrammar | daemon/lib/json_reader.cpp:525-565 | what is taken for an integer is a number of RFC 8259 section 6 exactly when it has a digit and no leading zero before another digit |
| JsonStrings.NumbersBeyondTheGrammar | daemon/lib/json_reader.cpp:525-565 | the two exceptions happen: a single minus sign is 0, and a leading zero is skipped |
| JsonStrings.IntegerTokenReads | daemon/lib/json_reader.cpp:396-416 | the reader takes exactly the numeral as one number token when no number character follows |
| JsonReader.Reader.DecodeStringToken | daemon/lib/json_reader.cpp:587-647 | the decoded text, or the error with its location |
| JsonReader.Reader.DecodeUnicodeCodePoint | daemon/lib/json_reader.cpp:649-676 | a code point from one escape or a surrogate pair, with the three errors a broken pair can have |
| JsonReader.Reader.DecodeUnicodeEscapeSequence | daemon/lib/json_reader.cpp:678-704 | the value of exactly four hexadecimal digits, or the error at the digit that is none |
| JsonDecode.UnescapeTable | daemon/lib/json_reader.cpp:600-634 | which letters may follow a backslash, and what they stand for |
| JsonDecode.HexDigitTable | daemon/lib/json_reader.cpp:688-700 | the hexadecimal digits and their values |
| JsonStrings.QuotedRoundTrip | daemon/lib/json_reader.cpp:418-428 | for every byte string s, reading consumes exactly the quoted form of s and decodes it to s, wherever it stands |
| JsonStrings.QuotedInjective | daemon/lib/json_writer.cpp:228-289 | two strings with the same quoted form are the same string |
| JsonStrings.EscapedScalarsDecode | daemon/lib/json_reader.cpp:596-676 | any sequence of Unicode scalar values written as \uXXXX escapes, with surrogate pairs above 0xFFFF (RFC 8259 section 7), decodes to the UTF-8 of those values |
| JsonStrings.Utf8RoundTrip | daemon/lib/json_tool.h:18-44 | an independent UTF-8 decoder (RFC 3629 section 3) gives the code point back exactly when it is a scalar value |
| JsonWriter.UintToString | daemon/lib/json_tool.h:52-69 | the numeral and its NUL take at most 21 bytes in front of the end, are the decimal numeral, and nothing else of the buffer changes |
| JsonWriter.ValueToString | daemon/lib/json_writer.cpp:81-105 | the numeral of any 64-bit integer, the least one included, out of a 25-byte buffer |
| JsonWriter.ValueToQuotedStringN | daemon/lib/json_writer.cpp:228-289 | the escape of each byte between quotes, also on the fast path for plain texts |
| JsonWriter.ValueToQuotedString | daemon/lib/json_writer.cpp:151-213 | the quoted form of the text up to its first NUL |
| JsonText.EscapeTable | daemon/lib/json_writer.cpp:228-289 | the escape of every byte: a backslash and a letter for seven of them, four hexadecimal digits with capitals for the other control characters, and no other byte is escaped |
| JsonWriter.FastWriter.Write | daemon/lib/json_writer.cpp:303-361 | the document is the compact text of the value and a line feed |
| JsonWriter.FastWriter.WriteMembers | daemon/lib/json_writer.cpp:340-361 | looking each member up by its name again prints the members in order |
| JsonText.CompactIsItsTokens | daemon/lib/json_writer.cpp:303-361 | the compact text is the texts of the tokens of the value with nothing between them |
| JsonWriter.StyledWriter.Write | daemon/lib/json_writer.cpp:369-378 | the document is the text of the lines `JsonLayout.Lines` of the value. No line has a break in it or starts with a further blank, and each starts with three blanks for every container that is open before it, one less if it closes one |
| JsonLayout.StyledIsLines | daemon/lib/json_writer.cpp:369-538 | the styled text of any value is the text of its lines: a line for each bracket of a broken container, for each member with " : " behind its name, and for each item, with a comma except behind the last |
| JsonLayout.LinesNest | daemon/lib/json_writer.cpp:517-538 | the level of every line is the number of brackets opened before it and not closed, one less for a closing bracket |
| JsonLayout.OneLineExactly | daemon/lib/json_writer.cpp:482-508 | an array with items takes one line exactly when none of them has items or members, there are at most 24, and brackets, items, commas and blanks are at most 73 bytes; the line is then `[ a, b ]` |
| JsonLayout.ItemLineAt | daemon/lib/json_writer.cpp:439-471 | the k-th item of a list of values of one line each is the k-th line |
| JsonLayout.MemberLineAt | daemon/lib/json_writer.cpp:408-434 | and so is the k-th member, with its quoted name and " : " in front of the value |
| JsonLayout.SmallObject | daemon/lib/json_writer.cpp:369-378 | the three lines of an object with one member |
| JsonWriter.StyledWriter.WriteValue | daemon/lib/json_writer.cpp:380-437 | either the styled text is appended to the document, or while measuring exactly one string to the side list; indentation and mode are as before |
| JsonWriter.StyledWriter.WriteArrayValue | daemon/lib/json_writer.cpp:439-480 | one line or many lines as the measure says, and as many measured strings as items, so the size assertion holds |
| JsonWriter.StyledWriter.IsMultineArray | daemon/lib/json_writer.cpp:482-508 | many lines exactly when there are more than 24 items, an item has structure, or the line would reach 74 bytes (what that means for the text is `JsonLayout.OneLineExactly`); the side list holds one text for each item when measuring took place |
| JsonWriter.StyledWriter.MeasureItems | daemon/lib/json_writer.cpp:495-506 | the measuring pass leaves the document alone and records the text of every item |
| JsonWriter.StyledWriter.WriteIndent | daemon/lib/json_writer.cpp:517-526 | no line break at the start or behind a blank, and one line break with the indentation otherwise |
| JsonWriter.StyledWriter.Unindent | daemon/lib/json_writer.cpp:533-538 | takes off what Indent put on |
| JsonRoundTrip.StyledSpells | daemon/lib/json_writer.cpp:369-538 | the reader reads the styled text of a value as exactly the tokens of the value, with names cut at their first NUL, at any place of any document |
| JsonRoundTrip.CompactSpells | daemon/lib/json_writer.cpp:303-361 | the reader reads the compact text of a value as exactly the tokens of the value |
| JsonCodec.WritersAgree | daemon/lib/json_writer.cpp:303-538 | when no member name has a NUL, the documents of the two writers have the same token sequence, which is that of the value |
| JsonReadBack.ReadValueOf | daemon/lib/json_reader.cpp:153-213 | reading any text that spells the tokens of a value gives the normal form of the value, ends behind the text, adds no error and gives the depth back |
| JsonReadBack.ReadValueTooDeep | daemon/lib/json_reader.cpp:158 | reading any text that spells a value with too many levels ends in the exception |
| JsonReadBack.StyledRoundTrip | daemon/lib/json_reader.cpp:111-151 | Reader.parse of StyledWriter.write(v), for every v without reals: the normal form of v without errors when v has at most 1000 levels, the exception otherwise |
| JsonReadBack.CompactRoundTrip | daemon/lib/json_reader.cpp:111-151 | the same for FastWriter, with whole names |
| JsonReadBack.StyledRoundTripIsExact | daemon/lib/json_writer.cpp:422 | what comes back through StyledWriter is v up to re-tagged integers and filled holes exactly when no member name contains a NUL; through FastWriter always |
| JsonCodec.StyledThenRead | daemon/lib/json_writer.cpp:369-378 | the writer and the reader objects one after the other: the value comes back, or the exception |
| JsonCodec.CompactThenRead | daemon/lib/json_writer.cpp:303-308 | the same with the compact writer |
| JsonSettled.ParseSettles | daemon/lib/json_reader.cpp:111-151 | every value the reader accepts has sorted distinct names, no holes, integers in their canonical tags, and at most 1000 levels |
| JsonSettled.ReadPrintRead | daemon/lib/json_reader.cpp:111-151 | whatever the document looked like, printing the accepted value and reading it again gives the same value |
| JsonSettled.CompactRoundTripExactly | daemon/lib/json_writer.cpp:303-361 | a real-free value survives FastWriter and Reader exactly when it has no string without a pointer and at most 1000 levels |
| JsonSettled.StyledRoundTripExactly | daemon/lib/json_writer.cpp:369-538 | a printable value survives StyledWriter and Reader exactly when no member name has a NUL and it has at most 1000 levels |
| JsonSettled.NormOfStore | daemon/lib/json_writer.cpp:416-437 | storing a member, printing the object and reading it back stores the value under the part of the name before its first NUL and changes nothing else |
| JsonGrammar.GrammarParses | daemon/lib/json_reader.cpp:111-151 | for every text of the grammar of RFC 8259, with any escapes, number spelling, white space and repeated names: accepted exactly when its high surrogates are paired, its numbers are 64-bit integers or doubles, it has at most 1000 levels and the root is a container if it has to be; then it gives the value of the text without errors, and only too many levels end in the exception |
| JsonGrammar.ReadTree | daemon/lib/json_reader.cpp:153-213 | reading any value of the grammar behind white space: the outcome of its first part that fails, and on success its value and the place behind it |
| JsonGrammar.FateExactly | daemon/lib/json_reader.cpp:153-213 | that outcome is success exactly under the conditions on surrogates, numbers and levels |
| JsonGrammar.StringReads | daemon/lib/json_reader.cpp:587-676 | every string of the grammar is one token and decodes to its meaning, and fails exactly when a high surrogate has no escape behind it |
| JsonGrammar.NumberDecodes | daemon/lib/json_reader.cpp:525-565 | a number of the grammar is decoded as an integer exactly when it has no fraction, no exponent and is in the 64-bit range, with its value |
| JsonGrammar.LoneSurrogateIsRefused | daemon/lib/json_reader.cpp:649-676 | a text of the grammar that is refused: an escaped high surrogate alone in a string |
| JsonOrder.StrictTotalOrder | daemon/lib/json_value.cpp:484-578 | operator< is irreflexive, transitive and asymmetric on real-free values with fewer than 2^31 entries in a container, and neither-less coincides with operator== and with being the same value |
| JsonOrder.ObjectsUnorderedExactly | daemon/lib/json_value.cpp:517-522 | without the bound on sizes: two objects are each less than the other exactly when their sizes differ by 2^31 modulo 2^32 |
| JsonOrder.ArraysUnorderedExactly | daemon/lib/json_value.cpp:517-522 | the same for arrays |
| JsonOrder.HugeArrayIsUnordered | daemon/lib/json_value.cpp:517-522 | two values for which it happens |
| JsonOrder.ArraysTransitiveExactly | daemon/lib/json_value.cpp:517-522 | for arrays of any size with a < b and b < c: a < c exactly when the sum of the two wrapped size differences is still an int; when both are the least int, the items decide |
| JsonOrder.ObjectsTransitiveExactly | daemon/lib/json_value.cpp:517-522 | the same for objects |
| JsonOrder.ArraysInACircle | daemon/lib/json_value.cpp:517-522 | three arrays, of 0, 1610612736 and 3221225472 nulls, each less than the next and the last less than the first |
| JsonOrder.CompareIsConsistent | daemon/lib/json_value.cpp:476-482 | compare is antisymmetric and zero exactly on equal values |
| JsonOrder.EqualIsIdentity | daemon/lib/json_value.cpp:536-578 | operator== holds exactly between identical real-free values, of any size |
| JsonOrder.ScalarsInOrder | daemon/lib/json_value.cpp:484-516 | values of different types in the order null, int, uint, real, string, bool, array, object; numbers by size, false before true, a null string pointer before any string |
| JsonOrder.ShorterIsLess | daemon/lib/json_value.cpp:517-522 | the container with fewer entries is less |
| JsonOrder.FirstItemDecides | daemon/lib/json_value.cpp:517-522 | of two arrays of the same length the first items that differ decide |
| JsonOrder.FirstMemberDecides | daemon/lib/json_value.cpp:517-522 | of two objects of the same size the first members that differ decide, by name and then by value |
| JsonValue.KeyTrichotomy | daemon/lib/json_value.cpp:256-278 | of two keys one is less or they are the same |
| JsonValue.KeyLessMeans | daemon/lib/json_value.cpp:256-267 | a key is less exactly when it is the start of the other one or has the lesser byte where they first differ |
| JsonValue.KeyLessTransitive | daemon/lib/json_value.cpp:256-267 | the key order is transitive |
| JsonValue.FindIsLookup | daemon/lib/json_value.cpp:999-1009 | find in the sorted members is the lookup in the map they stand for |
| JsonValue.StoreSorted | daemon/lib/json_value.cpp:973-990 | a store through a resolved reference keeps the members sorted by distinct names |
| JsonValue.StoreIsUpdate | daemon/lib/json_value.cpp:973-990 | a store is the update of the map |
| JsonValue.RemoveIsDelete | daemon/lib/json_value.cpp:1064-1076 | removeMember deletes the key from the map and nothing else |
| Contacts.BitMail.AddContact | core/src/bitmail.cpp:482-503 | what is refused, what changes nothing, when the JSON library throws; on a book the new contact is empty, all other entries are unchanged, and the text loads again |
| Contacts.BitMail.HasContact | core/src/bitmail.cpp:505-515 | membership in the book |
| Contacts.BitMail.RemoveContact | core/src/bitmail.cpp:517-536 | deletes exactly that contact; a contact whose value is null is not removed and false is returned |
| Contacts.BitMail.GetAttribute | core/src/bitmail.cpp:538-560 | the attribute of a book, or the empty string when contact or attribute is missing; for other stores the text of what is found there, or the exception |
| Contacts.BitMail.AsString | daemon/lib/json_value.cpp:601-624 | the text of each kind of value, and the exception for containers |
| Sections.TextsOfValues | daemon/lib/json_value.cpp:601-624 | what asString gives for each kind of value: "true" and "false" for booleans, nothing for null, the numeral of an integer; only containers are refused |
| Sections.FlagsOfValues | daemon/lib/json_value.cpp:785-803 | what asBool gives: integers that are not 0 are true, null is false, strings and containers are refused |
| Contacts.BitMail.SetAttribute | core/src/bitmail.cpp:562-587 | sets exactly that attribute of that contact, which is created when it is missing; names count up to their first NUL where they are stored |
| Contacts.BitMail.ContactNames | core/src/bitmail.cpp:472-480 | the contacts of the book, each once, in order |
| Contacts.BitMail.Export | core/src/bitmail.cpp:332-374 | the printed object loads to one that has, under the thirteen names written out in the statement, the profile, the network with the encrypted password, the flags, and the contacts as they load, or an empty object when they do not |
| Contacts.BitMail.Import | core/src/bitmail.cpp:278-330 | the three settings sections in their order, each of which may throw and leave what was set before it (which member goes where: `Sections.ImportByName`); only then do the contacts of an accepted text become the store, in the form they have when printed and loaded |
| Contacts.BitMail.TakeProfile | core/src/bitmail.cpp:285-292 | certificate and key are taken one after the other when both are there |
| Contacts.BitMail.TakeNetwork | core/src/bitmail.cpp:293-312 | all five texts or none configure the network, each from the member of its name (`Sections.ImportByName`) |
| Contacts.BitMail.TakeBlock | core/src/bitmail.cpp:313-324 | each flag that is there, until one is no flag |
| Sections.FlagThrows | daemon/lib/json_value.cpp:785-803 | an imported flag ends in the exception exactly when it is there and is a string, an array or an object |
| Sections.FlagIsStored | core/src/bitmail.cpp:313-324 | a flag exported with either boolean is imported as that boolean, whatever it was and whatever stands beside it; one that is not there stays as it was |
| Contacts.BitMail.Config | core/src/email.cpp:58-82 | every URL that is not empty ends with a slash |
| Sections.ThrowsExactly | core/src/bitmail.cpp:285-324 | the import throws before the contacts are stored exactly when the document or a section in it is neither an object nor null, all texts of a section are there and one is an array or object, or a flag is a string, array or object |
| Sections.ImportOfExport | core/src/bitmail.cpp:278-374 | importing an exported document throws nothing and gives the network and the flags as they were, with the password that the profile decrypts |
| Sections.ExportByName | core/src/bitmail.cpp:332-374 | member by member, with the names as literals: "Profile" with "cert" and "key", "network" with "txUrl", "rxUrl", "login", "password" and "proxy", "block" with "noSig", "noEnvelop" and "noFriend", and "contacts"; no other member is written |
| Sections.ImportByName | core/src/bitmail.cpp:278-324 | any document with these literal names, with or without each section and whatever else it holds, gives exactly these settings |
| Contacts.ExportThenImport | core/src/bitmail.cpp:278-374 | what is exported from one BitMail and imported into any other is the same there: contacts, network, flags, and the profile as far as OpenSSL takes it |
| Contacts.NullContactStays | core/src/bitmail.cpp:517-536 | a contact whose value is null comes in by an import of {"contacts":{"a":null}}, and then it cannot be removed: false, and the store is as before |
| Contacts.LastSetIsRead | core/src/bitmail.cpp:538-587 | a get returns the value set last, whatever other attribute is set in between |
| Contacts.StoredText | core/src/bitmail.cpp:583-585 | the text saved for an updated book always loads, with the update and nothing else |
| Contacts.ImportedText | core/src/bitmail.cpp:325-328 | the text saved by an import always loads, whatever was imported |
| Receips.DecodeReceips | core/src/bitmail.cpp:124-149 | strictly sorted, and exactly the pieces that contain an @, byte by byte: digits, letters, @, dot and underscore are kept, capitals come out 32 higher, all other bytes go |
| Receips.DecodedByteByByte | core/src/bitmail.cpp:124-149 | the decoded list is the set of the filtered pieces with an @, with the bytes that are kept written out |
| Receips.CleanDecodes | core/src/bitmail.cpp:124-149 | a text of small letters, digits, dots, underscores and an @ decodes to itself |
| Receips.EraseOthers | core/src/bitmail.cpp:131-137 | erasing in place leaves exactly the bytes 48 to 57, 65 to 90, 97 to 122, 64, 46 and 95, in their order |
| Receips.GetLine | core/src/bitmail.cpp:129 | one piece and the rest of the pieces; an empty one at the very end is not seen |
| Receips.SerializeReceips | core/src/bitmail.cpp:151-167 | the key of the list |
| Receips.DecodedIsCanonical | core/src/bitmail.cpp:124-149 | every decoded list is strictly sorted and consists of clean lower-case addresses |
| Receips.DecodeSerialized | core/src/bitmail.cpp:151-167 | decoding the key lists exactly the addresses of all texts of the list, in order |
| Receips.SameKey | core/src/bitmail.cpp:151-167 | two lists have the same key exactly when they name the same set of addresses |
| Receips.SerializeIsIdempotent | core/src/bitmail.cpp:151-173 | the key of a key is the key, as a text and as a decoded list |
| Receips.SortIsIdle | core/src/bitmail.cpp:147 | sorting what an ordered set lists can only give the same list |
| Receips.SortedUnique | core/src/bitmail.cpp:143-148 | an ordered set has one listing |
| TxHeader.BuildMail | core/src/email.cpp:141-174 | the mail is the header lines, each ended by CR LF, and then the message: `From: <sender>`, `To:` with eight blanks, one line of eleven blanks and `<recipient>` for each recipient, with a comma except behind the last, and `Subject: BitMail` |
| TxHeader.MailLayout | core/src/email.cpp:141-174 | the same for any sender, recipients and message, with the line of each recipient at its place |
| TxHeader.HeaderLinesAreWhole | core/src/email.cpp:141-174 | no header line has a line feed in it unless the sender or a recipient has |
| TxHeader.ParseRFC822AddressList | core/src/bitmail.cpp:723-787 | the tokens with an @ of the first folded To field, through CR removal, folding and tokenising |
| TxHeader.NextToken | core/src/bitmail.cpp:772-781 | one call of strtok: the next token and the rest of them |
| TxHeader.DelimitersAre | core/src/bitmail.cpp:772-781 | the characters that separate tokens, written out |
| TxHeader.FirstToField | core/src/bitmail.cpp:723-770 | in any mail the first line that starts with to:, in either case, and all lines behind it up to one that starts with a character that is no white space make the field |
| TxHeader.NoToLine | core/src/bitmail.cpp:723-770 | and without such a line there is none |
| TxHeader.AddressListOfMail | core/src/email.cpp:141-174 | from a mail to any recipients that are tokens, by any sender without a line feed and with any message, the parser gets every recipient in order |
| TxHeader.RecipientsRoundTrip | core/src/bitmail.cpp:723-787 | decoding what the parser gets gives the recipients back: a canonical list as it is, any other list of addresses in canonical form |
| TxHeader.SendAndParse | core/src/email.cpp:141-174 | building, parsing and decoding one after the other |
| Int10Numbers.Int10.MulAdd | web/asn1js/int10.js:26-43 | the number becomes exactly m times itself plus c, in limbs below 10^13 without a leading zero limb; negative numbers as far as doubles are exact |
| Int10Numbers.Int10.LimbTimes | web/asn1js/int10.js:31-40 | every intermediate stays below 2^53 |
| Int10Numbers.TruncatedQuotient | web/asn1js/int10.js:36 | whatever correctly rounded double the division gives, its truncation is the integer quotient |
| Int10Numbers.TruncationIsExact | web/asn1js/int10.js:36 | the rounding error of the quotient is smaller than its distance from the next integer |
| Int10Numbers.MulAddValue | web/asn1js/int10.js:26-43 | the limbs after the carry loop stand for m times the number plus c, and the top one is not zero |
| Int10Numbers.LimbsAreExact | web/asn1js/int10.js:21 | the limb size is the largest power of ten whose products with 256 are exact in a double |
| Int10Numbers.Int10.ToString | web/asn1js/int10.js:45-53 | the numeral of the number |
| Int10Numbers.ToStringIsNumeral | web/asn1js/int10.js:45-53 | the numeral denotes the number and has no leading zero |
| Int10Numbers.Int10.ValueOf | web/asn1js/int10.js:55-61 | the number, as far as a double is exact |
| Int10Numbers.Int10.Simplify | web/asn1js/int10.js:63-66 | a plain number exactly when the number is below 10^13 |
| Asn1Numbers.Stream.Next | web/asn1js/asn1.js:42-48 | the position moves on even when the read throws |
| Asn1Numbers.Stream.ParseInteger | web/asn1js/asn1.js:132-160 | the numeral of the two's complement value of the contents (X.690 section 8.3) however they are padded, behind the bit length when that is above 32; contents beyond the stream throw |
| Asn1Numbers.ShownExactly | web/asn1js/asn1.js:132-160 | integers from -2^32 to 2^32 - 1 are shown as numerals, all others behind "(n bit)" and a line feed, with the least number of bits for n |
| Asn1Numbers.Stream.TrimBits | web/asn1js/asn1.js:145-152 | the bits left are those from the first one that differs from the sign |
| Asn1Numbers.BitsOfOctets | web/asn1js/asn1.js:144-152 | eight bits an octet less the leading sign bits is the bit length of the value |
| Asn1Numbers.BitLengthIsLeast | web/asn1js/asn1.js:144-152 | the printed bit count is the least n with -2^n <= N < 2^n |
| Asn1Numbers.SkipPad | web/asn1js/asn1.js:138-140 | an octet that repeats the sign does not change the value |
| Asn1Numbers.Stream.ParseOID | web/asn1js/asn1.js:190-214 | the arcs of the subidentifiers, cut where they first exceed the limit, marked when the last one is incomplete; contents beyond the stream throw unless the cut comes first |
| Asn1Numbers.ArcsExactly | web/asn1js/asn1.js:190-214 | how the first subidentifier is taken apart, below 40, below 80 and above, and the mark of an incomplete one |
| Asn1Numbers.OidRoundTrip | web/asn1js/asn1.js:190-214 | for every object identifier, the contents octets of X.690 section 8.19 are shown as its arcs with dots between them |
| Asn1Decoder.DecodeElement | web/asn1js/asn1.js:386-443 | the recursive method on the shared stream gives what the function of the octets gives, with the stream behind the element; attempts that failed leave no trace |
| Asn1Decoder.DecodeLength | web/asn1js/asn1.js:352-365 | lengths of up to six octets, the indefinite form, and an exception for more |
| Asn1Decoder.NewTag | web/asn1js/asn1.js:366-379 | class, form and number, of any size |
| Asn1Decoder.TrySub | web/asn1js/asn1.js:422-436 | the attempt on a BIT STRING or OCTET STRING succeeds exactly when the contents are elements without an end-of-contents element and there are no unused bits |
| Asn1Decoder.ReadSub | web/asn1js/asn1.js:395-418 | the children and the length of the contents, negative for the indefinite form |
| Asn1Decode.DecodeIsShaped | web/asn1js/asn1.js:386-443 | every accepted element, at every depth: the stream ends at posEnd; children are contiguous and fill a definite container exactly, behind the unused-bits octet of a BIT STRING; an indefinite container ends with one end-of-contents element and has none among its children |
| Asn1Decode.ChildrenAreInside | web/asn1js/asn1.js:340-348 | children lie inside the contents of their parent, one behind the other |
| Asn1Decode.InsideByEnd | web/asn1js/asn1.js:340-348 | an accepted element lies in the stream at every depth exactly when its own end does |
| Asn1Decode.InsideExactly | web/asn1js/asn1.js:386-443 | an accepted element of known length lies in the stream exactly when the declared length does not reach beyond it; one of indefinite length, exactly when the element that ends its contents does |
| Asn1Decode.TwoOctetCloser | web/asn1js/asn1.js:407-413 | the element that ends indefinite contents has the two octets of X.690 section 8.1.5 exactly when they are 0 and 0, or 32 and 0; only its tag is looked at |
| Asn1Decode.CutOffIsAccepted | web/asn1js/asn1.js:437-442 | the octets 2, 5 and the octets 48, 128, 0, 5 are accepted, and end beyond the stream |
| Asn1Decode.DecodeEncoded | web/asn1js/asn1.js:386-443 | decoding the X.690 encoding (sections 8.1.2 to 8.1.5) of any tree at any offset gives the same tree, classes, tags, lengths and contents: any tag number, any length form of up to six octets, definite and indefinite containers, elements wrapped in BIT STRINGs and OCTET STRINGs, and BIT STRINGs and OCTET STRINGs of any contents, whose children are what the attempt makes of them |
| Asn1Decode.IdentifierReads | web/asn1js/asn1.js:366-379 | the tag of encoded identifier octets |
| Asn1Decode.LengthReads | web/asn1js/asn1.js:352-365 | the length of encoded length octets |
| Asn1Decode.FirstOfLength | web/asn1js/asn1.js:352-365 | for any octets: a first octet below 128 is the length, 128 is the indefinite form, and more than six further octets are refused |
| Asn1Decode.ShortIdentifier | web/asn1js/asn1.js:366-379 | for any octet: two bits of class, one of form, five of the number |
| Asn1Decode.EncapsulatingTags | web/asn1js/asn1.js:422-436 | only a primitive BIT STRING or OCTET STRING is tried as a container |
| Asn1Decoder.DecodeTree | web/asn1js/asn1.js:386-443 | the method on an encoded tree |
| MimeParser.ParseHdr | core/src/multipart.cpp:366-470 | the headers and the place where the body starts, by the state machine that writes NULs into its line buffer |
| MimeParser.ParseInPlace | core/src/multipart.cpp:378-466 | the work on one piece in the buffer: no text that was cut out before is damaged by a later cut |
| MimeParser.OneCharacter | core/src/multipart.cpp:394-456 | one character takes the seven states and their variables one step on |
| MimeParser.StripStartAt | core/src/multipart.cpp:478-494 | leading white space and one quote are skipped |
| MimeParser.StripEndAt | core/src/multipart.cpp:497-517 | trailing white space is cut off, or what stands from a last quote on; nothing before the string or behind its end is written |
| MimeParser.StripEndsAt | core/src/multipart.cpp:472-475 | both, in place |
| MimeHeader.StripsWhite | core/src/multipart.cpp:472-517 | any white space in front of a text and behind it is stripped |
| MimeParser.LowerCopy | core/src/multipart.cpp:525-533 | a copy of the string with every capital lowered and every other byte kept, NUL-terminated; the line buffer is untouched |
| MimeHeader.CapitalsAreNotFound | core/src/multipart.cpp:221-247 | in no message is a header or parameter found under a name with a capital letter, as the remark on the parameter name demands |
| MimeHeader.HeaderIsFound | core/src/multipart.cpp:519-556 | a new header is found under the lower-case form of its name, however it was written, and under no other name |
| MimeHeader.ParamIsFound | core/src/multipart.cpp:558-590 | a new parameter is found in the header pushed last under the lower-case form of its name, with its value as it was; no other header changes |
| MimeHeader.ScanBalanced | core/src/multipart.cpp:394-456 | over a text whose comments and quotations are closed the machine comes back to the mode it started in, with the text still to be cut out whole |
| MimeHeader.FieldScans | core/src/multipart.cpp:366-470 | a rendered line gives one header, after any headers before it: the stripped texts, lower-cased except for parameter values, also with comments and quotations that hold semicolons |
| MimeHeader.RenderedParses | core/src/multipart.cpp:366-470 | for headers rendered as lines of such texts under the line limit the parser returns the headers of their fields, and stops at the first byte of the body |
| MimeHeader.PlainIsScanned | core/src/multipart.cpp:366-470 | plain texts come through as they are, but for the case of names and header values |
| MimeLines.LineMeans | core/src/multipart.cpp:378-466 | for every line and all headers before it the state machine gives what the line means when it is split at its separators: open comments and quotations lose their text, and a line that starts with white space has parameters only |
| MimeLines.FoldedHeadersParse | core/src/multipart.cpp:366-470 | headers folded over any number of lines parse to one header each, with the value of the first line and the parameters of all lines in order, and the parser stops at the first byte of the body |
| MimeLines.FoldedValueIsLost | core/src/multipart.cpp:378-386 | a continuation line without an equals sign adds nothing: the value of a header cannot be folded |
| MimeHeader.QuotedParameter | core/src/multipart.cpp:437-453 | a quoted parameter value, with semicolons, parentheses and white space in it, comes back exactly when it has not one character, and is null then |
| MemBio.Bio.Gets | core/src/multipart.cpp:378 | a piece of at most 1023 bytes that ends behind a line feed, with a NUL behind it |
| MemBio.LongLineIsCut | core/src/multipart.cpp:378 | a line of more than 1023 bytes is cut behind the 1023rd |
| MimeMessage.ToMimeTextPlain | core/src/multipart.cpp:695-702 | `Content-Type: text/plain`, `Content-Transfer-Encoding: 7bit`, a blank line and the text |
| MimeMessage.FromMimeTextPlain | core/src/multipart.cpp:704-714 | the text of a 7bit part, empty otherwise |
| MimeMessage.OnlySevenBit | core/src/multipart.cpp:704-714 | for every part: its content when the header `Content-Transfer-Encoding` has the value 7bit, and nothing otherwise |
| MimeMessage.TextPlainRoundTrip | core/src/multipart.cpp:695-714 | for every byte string s, fromMimeTextPlain(toMimeTextPlain(s)) is s |
| MimeMessage.ReadPartContent | core/src/multipart.cpp:256-280 | the rest of the stream, in reads of 4096 bytes |
| MimeMessage.ReadPartEncoding | core/src/multipart.cpp:282-306 | the encoding header, lower case, or nothing |
| MimeMessage.HeaderThenBody | core/src/multipart.cpp:366-470 | rendered headers in front of any body are parsed off exactly |
| Multipart.MultiSplit | core/src/multipart.cpp:314-354 | the parts up to the final boundary, the last one pushed there, or 0 without one |
| Multipart.MimeBoundCheck | core/src/multipart.cpp:659-676 | no boundary, a part boundary or the final one |
| Multipart.BoundaryLines | core/src/multipart.cpp:659-676 | a line is a boundary exactly when it starts with two hyphens and the boundary, and the final one exactly when two more hyphens follow |
| Multipart.StripEolOf | core/src/multipart.cpp:678-693 | the CRs and LFs at the end go, and an LF among them is reported |
| Multipart.PartSplits | core/src/multipart.cpp:329-351 | a plain part is built up exactly, wherever the pieces of its lines are cut, between CR and LF as well; a part that is not counted does nothing |
| Multipart.BodySplits | core/src/multipart.cpp:314-354 | splitting the composed body ends at its final boundary with the parts in order |
| Multipart.NothingLost | core/src/multipart.cpp:333 | the char counter of boundaries loses a part exactly when there are 256 or more |
| Multipart.KeptLength | core/src/multipart.cpp:333 | every 256th part is lost |
| MimeMessage.MultipartSplit | core/src/multipart.cpp:137-196 | the return codes, the parts, and the null pointer that a container without parts ends in |
| MimeMessage.OtherMessages | core/src/multipart.cpp:137-196 | for every message: without a content type, or without a boundary of a multipart type, the code is 1; of another type there are no parts and the code is 0 |
| MimeMessage.MixedRoundTrip | qt/main.cpp:717-741 | multipart_split of toMixed(parts) returns the parts that are kept, for every non-empty list of parts with CRLF line breaks only that do not contain the boundary, and all of them exactly when there are fewer than 256 |
| MimeMessage.EmptyContainerCrashes | qt/main.cpp:717-741 | among the containers composed of plain parts exactly the one without parts ends in the null pointer |
| MimeMessage.CrashesExactly | core/src/multipart.cpp:137-196 | for every message: the null pointer is followed exactly when a container reaches its final boundary and every piece before it that is no boundary stands behind a number of boundaries that is 0 modulo 256 |
| MimeMessage.QuotedBoundary | core/src/multipart.cpp:137-196 | a container whose boundary is quoted is split along it, for every boundary and body, but one with a boundary of one character is refused |
| MimeMessage.FoldedBoundary | core/src/multipart.cpp:137-196 | a boundary on a continuation line is found, stripped as on the first line, for every text with closed comments and quotations and every body; if nothing is left of it the container is refused |
| Multipart.NoPieceExactly | core/src/multipart.cpp:314-354 | the loop ends at a final boundary exactly when there is one, and without a part exactly when it took no piece |
| MimeMessage.ToMixed | qt/main.cpp:717-741 | the header lines with the boundary `BitMail-Boundary-` and the uuid, and the body |
| Multipart.BodyTexts | qt/main.cpp:717-741 | the body byte by byte: every part between its boundary line and a line break, and the final boundary |
| MimeMessage.FromMixed | qt/main.cpp:743-763 | the parts of the splitter |
| MimeMessage.ComposeAndSplit | qt/main.cpp:717-763 | composing and splitting one after the other |
| SendQueue.RunIsSafe | qt/txthread.cpp:23-68 | in every interleaving of any number of producers and consumers: the permit and place equations hold, the queue never exceeds its capacity, whoever may pop finds a message, popped messages are a prefix of the pushed ones |
| SendQueue.StepKeeps | qt/msgqueue.h:27-53 | every atomic step of every thread keeps the equations |
| SendQueue.PopIsSafe | qt/msgqueue.h:46-53 | a thread behind a successful readable finds a message to dequeue |
| SendQueue.AbandonedStay | qt/txthread.cpp:46-48 | permits given up never come back, so at least as many messages stay in the queue for ever |
| SendQueue.StuckForever | qt/txthread.cpp:44-48 | when every permit has been given up, only timeouts happen any more: nothing is sent and every new message is dropped |
| SendQueue.RunKeepsCast | qt/txthread.cpp:23-68 | threads that only send and threads that only run stay what they are, so the following holds in every state they reach |
| SendQueue.StuckIsReached | qt/txthread.cpp:23-68 | with disjoint, non-empty sets of producers and consumers: from every reachable state some run of theirs gets stuck |
| SendQueue.FreshQueueGetsStuck | qt/txthread.cpp:23-68 | from the start some run of theirs ends with every place taken, nothing ever sent, and no way on |
| SendQueue.DrainedExactly | qt/txthread.cpp:42-68 | from a reachable state with a consumer some run of theirs brings the queue down to n messages exactly when at most n permits have been given up, and empties it exactly when none has |
| SendQueue.ProgressUnlessStuck | qt/txthread.cpp:23-68 | with all threads at rest the queue is stuck exactly when neither semaphore has a permit |
| SendQueue.MsgQueue.Push | qt/msgqueue.h:37-44 | one message at the end and one readable permit |
| SendQueue.MsgQueue.Pop | qt/msgqueue.h:46-53 | the first message, and one writable permit |
| SendQueue.MsgQueue.Readable | qt/msgqueue.h:27-30 | a permit is taken exactly when there is one |
| SendQueue.MsgQueue.Writable | qt/msgqueue.h:32-35 | the same for places |
| SendQueue.TxThread.OnSendMessage | qt/txthread.cpp:23-40 | the message is queued unless every place is taken, and dropped then |
| SendQueue.TxThread.RunOnce | qt/txthread.cpp:42-68 | a turn sends the first message; without an account it loses a permit and sends nothing |

## Left out

- JsonReader.Reader.DecodeInteger: reals are not modelled; which texts `istream >> double` accepts is a parameter, and a real keeps the text it was read from.
- JsonWriter.StyledWriter.Write: values with reals or with a null string pointer are excluded, as the printing of doubles is not modelled.
- JsonWriter.StyledWriter.IsMultineArray: sizes and the line length are unbounded integers, so an array of more than 700 million items is measured without the overflow of the code.
- JsonOrder.StrictTotalOrder: real values are excluded, and sizes are bounded by 2^31 for the reason above.
- JsonReader.Reader.Parse: after the depth exception the value of the root is not described.
- Comments of the JSON reader are skipped tokens; collecting and printing them is not modelled.
- JSON values are immutable trees with sorted member lists; stores and removals are functions on them, so aliasing of references into a value and manual memory are not modelled.
- OurReader, StyledStreamWriter and BuiltStyledStreamWriter are near copies of the modelled classes; the YAML, dropped-null and no-newline options of FastWriter are left at their defaults.
- Value::resize, removeIndex and Path.
- Contacts.BitMail.Import: imported contacts with reals are excluded; which texts OpenSSL takes for a certificate or a key, what a profile decrypts, and how a double is printed or whether it is zero are parameters.
- Contacts.BitMail.Export: the encrypted password is a parameter, since encryption is not part of this model.
- Receips.DecodeReceips: characters are classified in the C locale and bytes above 127 are no letters; a negative char in isalnum is undefined in C.
- Int10Numbers.Int10.MulAdd: negative numbers beyond 2^53 are not modelled, because they are rounded by doubles.
- Int10Numbers.Int10.ValueOf: numbers above 2^53 are not modelled for the same reason.
- Asn1Numbers.Stream.ParseInteger: negative contents below -2^53 are excluded; every negative content of six significant octets is inside.
- Asn1Numbers.Stream.ParseOID: a first subidentifier above 2^53 is excluded.
- The call stack limit of JavaScript, the other content printers of the decoder (times, strings, bit strings), and the DOM.
- MimeMessage.MultipartSplit: headers and parameters are found by their first occurrence; which of several with the same name the sorted stacks of OpenSSL give is not modelled, nor are failing allocations.
- MimeMessage.FromMimeTextPlain: the version in qt/main.cpp with base64 and quoted-printable texts and Qt string conversions is not modelled.
- MimeMessage.ToMixed: the uuid of the boundary is a parameter of 36 hexadecimal digits and hyphens.
- SendQueue.TxThread.OnSendMessage: the JSON object around a message is not modelled, and one call runs at a time; interleaved calls are the steps of `SendQueue.Do`. The capacity of 1000 is a parameter.
- SendQueue.RunIsSafe: the time a thread waits for a permit is not modelled; a timeout happens only when there is no permit.
- core/src/x509cert.cpp, encryption, the network code, the Qt windows and the command line clients.
