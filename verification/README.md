# Verification models of the failover server and its libraries

The repository is a pair of application servers with seamless failover on a user-space TCP/IP stack. It carries
a JSON library (`src/json.hpp`), a packet library (`lib/libtins`) and its own failover and echo code (`src`).
This project models the parts with the most state and arithmetic and proves what they are for.

* **JSON values, pointers, patches** (`JsonValue`, `JsonEquality`, `JsonPointer`, `JsonPatch`, `JsonPatchLaw`,
  `JsonDiff`, `JsonDiffLaw`): which values are equal, what each patch operation does to a document, and that the edit
  script `diff` emits against string paths, replayed by `patch`, turns the source into the target.
* **Flattening** (`JsonFlatten`, `JsonFlattenLaw`, `JsonUnflattenLaw`): exactly which documents survive `flatten` and
  `unflatten`, and what one assignment of `unflatten` does.
* **JSON text** (`Utf8`, `JsonString`, `JsonStringLaw`, `JsonNumber`, `JsonScanner`, `JsonParser`, `JsonDump`,
  `JsonDumpLaw`, `JsonTextLaw`): the scanner's automaton with backtracking, the string decoder and escaper, integer
  conversion, the recursive descent parser and the printer, up to the round trip of printing and parsing.
* **IPv4 reassembly** (`IPv4Reassembly`, `IPv4ReassemblyLaw`): every order, duplication and interleaving of
  fragments, and arbitrary overlapping ones.
* **Handshake capture** (`HandshakeCapture`): the regular language of complete four-way handshakes.
* **DNS messages** (`DnsWire`, `DnsFormat`, `DnsMessage`): the bytes, the buffer, its three indices and the four
  sections.
* **Failover and echo** (`Failover`, `Echo`): heartbeats, timers and main loop as interleaved atomic steps;
  the receive buffer that must neither lose nor reorder bytes.

`Outcomes`, `Numbers` and `Decimal` hold results, bounds and decimal numerals shared by the other modules. A `char`
stands for one byte throughout. Exceptions are `Err` results; loops and in-place updates are methods, each proved equal to a
function, and the laws are lemmas about those functions. The standards behind the formats are sections 2 to 7 of
RFC 7159, sections 3 and 4 of RFC 6901, section 4 of RFC 6902, section 4 of RFC 3629, section 2 of RFC 2781,
section 3.2 of RFC 791 and section 4 of RFC 1035.

Where the code and its documentation differ, the model follows the code:

* `source.patch(diff(source, target)) == target` (src/json.hpp:10535-10539) holds if and only if the target
  contains no NaN and every array index that the difference has to name fits an `int` (`Addressable`): indices pass
  through `std::stoi`, so `patch` throws `std::out_of_range` for larger ones, and a NaN is not equal to itself
  (`NaNTargetIsMissed`). The floating-point constructors (src/json.hpp:1515-1527) and `get_number`
  (src/json.hpp:9126-9131) replace NaN and infinity by null; such a value gets into a document when a caller writes
  through the pointer or reference that `get_ptr` (src/json.hpp:2818-2821, 2981) or `get_ref`
  (src/json.hpp:3058-3062) gives to a stored double, for instance `j.get_ref<double&>() = NAN`.
* `j == j.flatten().unflatten()` (src/json.hpp:10204-10207) also fails for objects whose least flattened name
  starts with the member `"0"`, for indices beyond `int`, and for documents with a NaN. `UnflattenOfFlatten` states
  exactly when it holds under `operator==`; `ZeroMemberIsLost` gives the smallest document that comes back as
  something else, `NaNIsRestoredUnequal` one that comes back unchanged but not equal.
* `get_number` recognises an overflow by the wrapped value being smaller than the old one or too large. That is
  exact for numerals in range. Beyond, `OverflowTestExactly` says which numerals slip through and what they are read
  as; 5 * 10^19 is one of them (`WrapGoesUnnoticed`).
* A printed value with infinities or NaN, or with strings that are not UTF-8, cannot be parsed again; otherwise it
  comes back equal exactly if each double survives its own printing with 15 digits (`ParseDump`).

## Model

| member | source | states |
|---|---|---|
| Decimal.StoiOfIndex | src/json.hpp:9584-9589 | an array index printed by `std::to_string` comes back from `std::stoi` if and only if it fits an int, and is out of range otherwise |
| Decimal.StoiOfText | src/json.hpp:9710-9722 | `std::stoi` reads blanks, at most one sign and digits, ignores what follows, and throws for no digits or a value that does not fit an int |
| Decimal.DigitsInOrder | src/json.hpp:9955-9972 | the ten digits of a printed index and what they stand for |
| JsonValue.EqReflexive | src/json.hpp:5458-5531 | a value equals itself under `operator==` if and only if it holds no NaN |
| JsonValue.EqIsNaNFree | src/json.hpp:5458-5531 | values that compare equal to anything hold no NaN |
| JsonValue.SortedKeys | src/json.hpp:9983-9988 | the order of a `std::map` iteration: all keys, each once, strictly increasing byte-wise |
| JsonValue.LessExactly | src/json.hpp:9983-9988 | the order of keys: at the first byte where they differ the smaller one decides, and a text comes before its continuations |
| JsonEquality.EqIsIdentity | src/json.hpp:5458-5531 | without numbers, two values are equal if and only if they are the same |
| JsonEquality.EqByShape | src/json.hpp:5458-5475 | containers are equal if and only if they have the same shape and equal children; values of different types are never equal, numbers aside |
| JsonEquality.EqOfIntegers | src/json.hpp:5487-5529 | integers of one kind are equal if they are the same, a signed and an unsigned one if they agree modulo 2^64 |
| JsonEquality.EqOfDoubles | src/json.hpp:5495-5498 | doubles are equal if they are the same number or the same infinity; a NaN is equal to nothing |
| JsonEquality.AsDoubleRounds | src/json.hpp:5505-5520 | the cast of an integer to a double rounds to the nearest number with a 53-bit significand, ties to even |
| JsonEquality.RoundsOnce | src/json.hpp:5505-5520 | there is one such number only |
| JsonEquality.EqOfIntAndDouble | src/json.hpp:5505-5512 | a signed integer and a double are equal if and only if the double is the rounded integer |
| JsonEquality.EqOfUintAndDouble | src/json.hpp:5513-5520 | so are an unsigned integer and a double |
| JsonPointer.Find | src/json.hpp:9917-9920 | the first occurrence of the searched text from a position on, or none |
| JsonPointer.ReplaceSubstring | src/json.hpp:9910-9922 | the loop of in-place replacements replaces every non-overlapping occurrence from the left, once |
| JsonPointer.EscapeStep | src/json.hpp:9925-9931 | the two replacements together escape character by character: `~` becomes `~0`, `/` becomes `~1` |
| JsonPointer.UnescapeUnit | src/json.hpp:9934-9940 | unescaping goes unit by unit: `~0` becomes a tilde, `~1` a slash, and no two units are merged |
| JsonPointer.EscapeUnescape | src/json.hpp:9925-9940 | escaping an unescaped token gives it back for every properly escaped token without slash |
| JsonPointer.UnescapeEscape | src/json.hpp:9925-9940 | unescaping an escaped token gives the token back, for every string |
| JsonPointer.SplitTokens | src/json.hpp:9835-9893 | the scanning loop returns the unescaped fields between slashes, or throws for a missing first slash or a bad escape |
| JsonPointer.SplitToString | src/json.hpp:9487-9507 | for every list of reference tokens, empty ones included, splitting the printed pointer gives the same tokens |
| JsonPointer.ToStringSplit | src/json.hpp:9480-9507 | every accepted pointer text is the printed form of the tokens it is split into |
| JsonPointer.SplitFails | src/json.hpp:9843-9888 | a pointer text is refused, with `std::domain_error`, if and only if it is not empty and does not start with a slash, or a tilde is not followed by 0 or 1 |
| JsonPatch.Patch | src/json.hpp:10268-10527 | the loop over the operations yields the fold of all decoded operations over the document, or the first exception |
| JsonPatch.EditAtBelow | src/json.hpp:9694-9736 | an edit below a prefix, with checked access, edits the sub-document there and substitutes the result |
| JsonPatch.EditOrCreateBelow | src/json.hpp:9627-9692 | the same with unchecked access, which creates members and grows arrays |
| JsonPatch.SubstitutedTwice | src/json.hpp:9694-9736 | a substituted sub-document is what is found at its place, and a second substitution overrides the first |
| JsonPatch.ApplyOpBelow | src/json.hpp:10307-10397 | one operation with prefixed paths changes exactly the sub-document at the prefix |
| JsonPatch.PatchIsLocal | src/json.hpp:10406-10524 | a patch with all paths prefixed does to the document exactly the substitution of the patched sub-document |
| JsonPatch.EffectOf | src/json.hpp:10446-10516 | every successful operation has its effect where it points: what was added, replaced, moved or copied is found at its path, what was removed is erased from its parent, a test holds and changes nothing |
| JsonPatch.SubstitutedElsewhere | src/json.hpp:9694-9736 | what is found at any location that does not lie on the same path stays the same |
| JsonPatchLaw.OperationsExactly | src/json.hpp:10307-10516 | every operation succeeds with a document if and only if that is what it leaves behind: a child inserted before the later ones, a member set, a child taken out, a value replaced, moved or copied, everything else as it was, and what is missing on the way created |
| JsonPatchLaw.AddInserts | src/json.hpp:10307-10368 | an addition below an existing parent: an array gets one longer, the value stands at the index or at the end for "-", earlier elements stay and later ones move up by one; an object gets the member and keeps the others; nothing changes elsewhere |
| JsonPatchLaw.RemoveErases | src/json.hpp:10371-10397 | a removal is the inverse of an insertion: exactly the named child is gone, the others keep their order |
| JsonPatchLaw.LeadsWhereFound | src/json.hpp:9627-9736 | where something is found already, access that creates and access that checks lead to the same place |
| JsonPatchLaw.PatchedInOrder | src/json.hpp:10399-10526 | the elements of a patch are applied from the first to the last, each to what the ones before have left; the first exception is the answer; anything but an array is an invalid argument |
| JsonPatchLaw.FoundExactly | src/json.hpp:9694-9736 | one more token: what is found below a found value, or which exception is thrown |
| JsonPatchLaw.NothingFoundBelow | src/json.hpp:9694-9736 | nothing is found below what is not found, and the exception stays the same |
| JsonPatchLaw.MissingTarget | src/json.hpp:10456-10510 | operations whose target or source is missing throw what looking for it throws; a test turns `std::out_of_range` into `std::domain_error` |
| JsonPatchLaw.FailedRemoval | src/json.hpp:10371-10397 | removing a missing member or element throws `std::out_of_range`, an index that is no number what `std::stoi` throws |
| JsonPatchLaw.FailedAddition | src/json.hpp:10327-10368 | adding beyond the end of an array throws `std::out_of_range`; a primitive parent breaks the assertion |
| JsonPatchLaw.FailedCopy | src/json.hpp:9649-9690 | copying below a primitive value throws `std::out_of_range`, to an index with a leading zero `std::domain_error`, to one that is no number what `std::stoi` throws |
| JsonPatchLaw.OperationsByName | src/json.hpp:10276-10304 | the six operations by their names and members in a patch document; an unknown name or a missing member is an invalid argument |
| JsonDiff.DiffOpsEmitted | src/json.hpp:10561-10691 | `diff` emits only add, remove and replace operations that can be written as patch elements |
| JsonDiff.EncodeAllBelow | src/json.hpp:10594-10596 | the edits of a child, written with the longer path text, are the child's edits with one more token in front |
| JsonDiff.Diff | src/json.hpp:10561-10691 | the emitted elements are the written form of the operations on tokens, for any path text in front |
| JsonDiff.DiffArrays | src/json.hpp:10588-10630 | the array case: common elements, removals from the end, additions |
| JsonDiff.InsertRemovals | src/json.hpp:10603-10615 | inserting each removal before the earlier ones puts higher indices first |
| JsonDiff.AppendAdditions | src/json.hpp:10617-10627 | the remaining elements of the target are added in order |
| JsonDiff.DiffElements | src/json.hpp:10590-10598 | the edits of the common elements, in order |
| JsonDiff.DiffObjects | src/json.hpp:10632-10674 | the object case: edits and removals of the source's members, then additions of new ones |
| JsonDiff.DiffMembers | src/json.hpp:10634-10655 | the first pass over the members of the source |
| JsonDiff.AppendNewMembers | src/json.hpp:10657-10671 | the second pass adds exactly the members only the target has |
| JsonDiffLaw.MergedEqualsTarget | src/json.hpp:10535-10539 | the patched value is equal to the target if and only if the target holds no NaN |
| JsonDiffLaw.NothingToDo | src/json.hpp:10572-10575 | a difference has no operations if and only if the two values are equal |
| JsonDiffLaw.FailsBelow | src/json.hpp:10307-10397 | operations that throw `std::out_of_range` on a sub-document still do so with the way there put before their paths |
| JsonDiffLaw.DiffApplies | src/json.hpp:10561-10691 | for all values, replaying the operations on tokens gives the merged value if every index to be named fits an int, and fails otherwise |
| JsonDiffLaw.RemovalsApply | src/json.hpp:10603-10615 | removals in reversed order cut the array to the common length; they fail if the last index does not fit an int |
| JsonDiffLaw.AdditionsApply | src/json.hpp:10617-10627 | additions at the growing end append the target's remaining elements; they fail if an index does not fit an int |
| JsonDiffLaw.ElementsApply | src/json.hpp:10406-10524 | replaying the written elements is replaying the operations: the path texts are parsed back to their tokens |
| JsonDiffLaw.PatchSucceeds | src/json.hpp:10406-10524 | for all values, patching the source with the difference gives the merged value if every index to be named fits an int, and throws `std::out_of_range` otherwise |
| JsonDiffLaw.FittingIsAddressable | src/json.hpp:9710-9722 | with arrays of at most 2^31 elements every index fits, so the patch never throws |
| JsonDiffLaw.PatchOfDiff | src/json.hpp:10535-10539 | for all values, patching the source with the difference succeeds with a result equal to the target if and only if the target holds no NaN and every index to be named fits an int |
| JsonDiffLaw.PatchYieldsTarget | src/json.hpp:10535-10539 | for every source, a target without numbers is reached exactly, or `std::out_of_range` is thrown for an index that does not fit an int |
| JsonDiffLaw.NaNTargetIsMissed | src/json.hpp:10535-10539 | from null to a NaN the patch succeeds and its result is not equal to the target |
| JsonDiffLaw.DiffThenPatch | src/json.hpp:10535-10539 | the same with the two algorithms run one after the other |
| JsonFlatten.Flatten | src/json.hpp:9949-9999 | the recursion over the value adds the entries of its leaves to the result |
| JsonFlatten.FlattenArray | src/json.hpp:9955-9972 | the loop over the elements |
| JsonFlatten.FlattenObject | src/json.hpp:9974-9991 | the loop over the members in map order |
| JsonFlatten.Unflatten | src/json.hpp:10007-10033 | the loop over the entries in map order, each written to its place |
| JsonFlatten.LeavesArePrimitive | src/json.hpp:9949-9999 | every leaf is primitive; empty containers count as null |
| JsonFlatten.ElementLeaf | src/json.hpp:9955-9972 | the leaves of an array are those of its elements, with the index in front |
| JsonFlatten.MemberLeaf | src/json.hpp:9974-9991 | the leaves of an object are those of its members, with the name in front |
| JsonFlatten.FlattenIsLeaves | src/json.hpp:9949-9999 | the flattened object lists exactly the leaves of the document, each under the printed pointer to it |
| JsonFlattenLaw.RunObject | src/json.hpp:9552-9606 | writing entries below an object acts on each member by the entries that start with its name |
| JsonFlattenLaw.RunArray | src/json.hpp:9552-9606 | writing entries below an array acts on each element by the entries that start with its index, whatever gaps the order 0, 1, 10, 2 leaves on the way |
| JsonFlattenLaw.RunFlat | src/json.hpp:9552-9606 | writing the leaves in map order restores a document if and only if it is restorable; a result that is not the document does not compare equal to it either |
| JsonFlattenLaw.RestoredExactly | src/json.hpp:10204-10207 | `unflatten(flatten(j))` is the unchanged document, leaf kinds included, if and only if it is restorable, and otherwise not even equal to it |
| JsonFlattenLaw.UnflattenOfFlatten | src/json.hpp:10204-10207 | under `operator==`, `j == unflatten(flatten(j))` if and only if no container is empty, no object has its member "0" first in map order of the flattened names, every index fits an int, and the document holds no NaN |
| JsonFlattenLaw.ZeroMemberIsLost | src/json.hpp:9562-9575 | the object {"0": null} does not come back equal |
| JsonFlattenLaw.NaNIsRestoredUnequal | src/json.hpp:10204-10207 | a NaN comes back unchanged and does not compare equal |
| JsonUnflattenLaw.AssignmentExactly | src/json.hpp:9552-9606 | one assignment, for every document and pointer: the value stands at the end of the tokens, arrays are filled up with nulls, a null becomes an array for "0" and an object otherwise, everything else stays |
| JsonUnflattenLaw.UnflattenRefuses | src/json.hpp:9594-9598 | values that are no objects, entries that are containers, and assignments below a primitive value throw `std::domain_error`; an index that is no number throws what `std::stoi` throws |
| Utf8.WellFormedAppend | src/json.hpp:8132-8403 | well-formed texts concatenate to well-formed text |
| JsonString.SurrogatePair | src/json.hpp:7667-7687 | the arithmetic on the two halves yields the code point of the pair, between 0x10000 and 0x10FFFF |
| JsonString.EncodedIsWellFormed | src/json.hpp:7689-7723 | a code point is encoded as one well-formed character from which it can be read back |
| JsonString.ToUnicodeOfEscape | src/json.hpp:7661-7723 | `to_unicode` on what `get_string` passes to it yields one well-formed character, or throws exactly for a wrong second half |
| JsonString.GetString | src/json.hpp:8854-8962 | the loop over the characters between the quotes, surrogate pairs included, yields the decoded text or the first exception |
| JsonString.DecodedIsWellFormed | src/json.hpp:8854-8962 | whenever `get_string` does not throw on a string token, its result is well-formed UTF-8; otherwise it throws `std::invalid_argument` |
| JsonString.DecodedExactly | src/json.hpp:8915-8951 | `get_string` throws, and then `std::invalid_argument`, if and only if some `\u` escape of a high surrogate is not followed by one of a low surrogate, or one of a low surrogate does not follow one of a high surrogate |
| JsonStringLaw.HexExactly | src/json.hpp:8917-8919 | the hexadecimal digits in both cases and their values |
| JsonStringLaw.CodePointIsRead | src/json.hpp:8915-8951 | in any spelling with upper or lower case digits, the escape of a code point that is no surrogate is read as the one character with that code point |
| JsonStringLaw.PairIsRead | src/json.hpp:8921-8936 | two escapes of a surrogate pair are read as the one character whose code point the pair encodes |
| JsonStringLaw.SimpleEscapesAreRead | src/json.hpp:8872-8912 | the eight escapes of one letter and the characters they are read as |
| JsonStringLaw.OtherEscapesAreNone | src/json.hpp:8132-8403 | a backslash in front of anything else is refused |
| JsonStringLaw.PlainCharIsRead | src/json.hpp:8955-8960 | any other ASCII character that is no control character stands for itself |
| JsonStringLaw.StringBodyBytes | src/json.hpp:8132-8403 | a string literal holds no raw control characters, and a quote only behind a backslash |
| JsonStringLaw.CharacterIsEncoded | src/json.hpp:7689-7723 | UTF-8 is unambiguous: every well-formed character is the encoding of its code point, which is no surrogate and at most 0x10FFFF |
| JsonString.ExtraSpaceIsExact | src/json.hpp:6192-6225 | the precomputed size is exactly the length of the escaped text |
| JsonString.EscapeString | src/json.hpp:6240-6345 | the preset buffer is filled from the left, in bounds and completely, with the escaped text |
| JsonString.WriteEscaped | src/json.hpp:6252-6341 | one byte of the loop: what is written, how far the position moves, what stays blank |
| JsonString.WriteCode | src/json.hpp:6324-6332 | the characters of one escape after its backslash |
| JsonStringLaw.PrintedChar | src/json.hpp:6252-6311 | seven characters are printed with an escape of their own, everything that is no control character as it is |
| JsonStringLaw.PrintedControl | src/json.hpp:6312-6334 | the other control characters are printed as escapes of four lower case hexadecimal digits |
| JsonString.DecodeEscaped | src/json.hpp:6240-6345 | `get_string` on the quoted result of `escape_string(s)` returns `s`, for every byte string |
| JsonString.EscapedIsStringBody | src/json.hpp:6240-6345 | the escaped form of well-formed text is accepted by the scanner as the inside of a string |
| JsonNumber.NumberLengthIsLongest | src/json.hpp:8005-8077 | whenever a text starts with a number of the grammar, the scanned length is at least as long |
| JsonNumber.NumberLengthIsNumber | src/json.hpp:8404-8440 | the scanned prefix is a number of the grammar |
| JsonNumber.GetNumber | src/json.hpp:9045-9135 | the digit loop with its overflow test, type and sign |
| JsonNumber.IntegersAreExact | src/json.hpp:9051-9134 | an integer numeral gets its exact value and kind if and only if it is at most 2^64 - 1, with a minus sign at most 2^63 in magnitude |
| JsonNumber.OverflowTestExactly | src/json.hpp:9091-9124 | any integer numeral, in range or not, is read as its value modulo 2^64 if digit by digit these residues never get smaller and stay within the maximum, and is taken for a floating-point number otherwise |
| JsonNumber.OthersAreFloating | src/json.hpp:9076-9089 | a numeral with fraction or exponent is never taken for an integer |
| JsonNumber.WrapGoesUnnoticed | src/json.hpp:9094-9107 | for 5 * 10^19 the wrapped value passes the overflow test and is kept |
| JsonNumber.IntTextIsExact | src/json.hpp:6464-6474 | a printed integer is read back as the same number, non-negative ones as unsigned |
| JsonNumber.NumberLengthEnds | src/json.hpp:8005-8077 | a number is scanned to its end and no further unless a digit, point or exponent follows |
| JsonNumber.IntTextLength | src/json.hpp:6464-6474 | a printed integer is scanned to its end and no further |
| JsonScanner.StringTokens | src/json.hpp:8132-8403 | a text starts with a string token of a given length if and only if that prefix is a quoted sequence of legal escapes and well-formed UTF-8 without raw control characters |
| JsonScanner.NumberTokens | src/json.hpp:8005-8077 | a text that starts with a number yields a number token that is the longest such prefix |
| JsonScanner.NumberTokensOnly | src/json.hpp:8404-8554 | a number token is always a number of the grammar |
| JsonTextLaw.TokensExactly | src/json.hpp:7787-8711 | for every kind of token, which texts start with one; every other text starts with an error |
| JsonTextLaw.LayoutDoesNotMatter | src/json.hpp:7802-7845 | tokens with any of the four blanks in front and between them are scanned as just these tokens |
| JsonTextLaw.BlanksExactly | src/json.hpp:7802-7845 | the blanks are space, tab, line feed and carriage return |
| JsonScanner.LexBound | src/json.hpp:7787-8711 | every token is non-empty, and every one but the end lies inside the text |
| JsonScanner.StepLeads | src/json.hpp:7979-8705 | every label of the automaton keeps the promised token: it goes on towards it, stops at its end, or backtracks to the position that gives it |
| JsonScanner.FirstLeads | src/json.hpp:7841-7951 | the dispatch on the first character sets off towards the token the text starts with |
| JsonScanner.StepMarked | src/json.hpp:8197-8206 | backtracking never happens before `m_marker` has been set |
| JsonScanner.Lexer.Scan | src/json.hpp:7787-8711 | `scan` skips exactly the blanks and leaves start and cursor around the token the rest starts with |
| JsonScanner.Lexer.Automaton | src/json.hpp:7808-8705 | the labels run from the first character find the declared token, with backtracking to the marker |
| JsonParser.StreamIsScanned | src/json.hpp:9397-9402 | every token of a text is as the scanner guarantees, and exactly the last one is an error or the end |
| JsonParser.ParseFlat | src/json.hpp:9204-9395 | the parser reads every properly written value, whatever follows, and returns its meaning or the exception of its first bad string |
| JsonParser.Recognised | src/json.hpp:9204-9395 | whatever the parser accepts is a properly written value followed by the remaining tokens, and the answer is its meaning |
| JsonParser.ParseTextExactly | src/json.hpp:9187-9201 | `parse` accepts exactly the texts whose tokens are those of one JSON value and the end, and returns the meaning of that value |
| JsonParser.ParseErrors | src/json.hpp:9404-9427 | the only exception the parser throws is `std::invalid_argument` |
| JsonParser.ParseValue | src/json.hpp:9204-9395 | every call of `parse_internal` that succeeds consumes at least one token |
| JsonParser.LastMemberWins | src/json.hpp:9268-9276 | of repeated names an object keeps the value of the last one, and it has no names but those written |
| JsonTextLaw.WordsAreRead | src/json.hpp:9345-9374 | the texts of the three constants, with any blanks around them, are parsed as null, true and false |
| JsonTextLaw.NumbersAreRead | src/json.hpp:9376-9381 | a text of one number is parsed as the exact integer if it is in range, and as what `strtod` makes of it, or null, if it has a fraction or an exponent |
| JsonTextLaw.StringsAreRead | src/json.hpp:9352-9358 | a text of one string literal is parsed as its decoded characters, or refused |
| JsonParser.Parser.GetToken | src/json.hpp:9397-9402 | the next token of the stream becomes the last one; the scanner is never called after the end or an error |
| JsonParser.Parser.CurrentString | src/json.hpp:9352-9358 | `get_string` on the last token |
| JsonParser.Parser.CurrentNumber | src/json.hpp:9376-9381 | `get_number` on the last token; numbers that are not finite become null |
| JsonParser.Parser.ParseInternal | src/json.hpp:9204-9395 | the recursive descent, with its updates of the last token, returns what the grammar says and leaves the tokens after the value |
| JsonParser.Parser.ParseObject | src/json.hpp:9210-9287 | the loop over the members |
| JsonParser.Parser.ParseMember | src/json.hpp:9238-9276 | one name, colon and value |
| JsonParser.Parser.ParseArray | src/json.hpp:9289-9343 | the loop over the elements |
| JsonParser.Parser.Parse | src/json.hpp:9187-9201 | the public interface: one value and then the end of the input |
| JsonDump.ReadsString | src/json.hpp:6452-6456 | a printed string is scanned as one token if it is well-formed UTF-8 and as an error otherwise |
| JsonDump.ReadsFloat | src/json.hpp:6476-6488 | a printed double is scanned as one number token if it is finite and as an error otherwise |
| JsonDump.ReadsDump | src/json.hpp:6364-6502 | in every layout a printed value is scanned as the tokens of its own syntax if its strings are well-formed and its doubles finite, and as an error otherwise |
| JsonDump.MeaningOfSyntax | src/json.hpp:6364-6502 | that syntax means the value itself, with non-negative integers unsigned and doubles as `get_number` reads them |
| JsonDump.CanonIsEqual | src/json.hpp:5458-5531 | for `operator==` the value has not changed if and only if no double has |
| JsonDump.ParseDump | src/json.hpp:2200-2222 | for every value and every indent, parsing the printed text succeeds if all strings and keys are well-formed UTF-8 and all doubles finite, and throws `std::invalid_argument` otherwise; the result is equal to the value if and only if every double survives being printed and read on its own |
| JsonDump.CompactIsTokens | src/json.hpp:6364-6502 | without pretty-printing a value is printed as its tokens and nothing else, floating-point numbers included |
| JsonDumpLaw.PrintedText | src/json.hpp:2200-2222 | the text for every value and indent: one line for a negative indent, otherwise every child of a container on a line of its own |
| JsonDumpLaw.DumpByDepth | src/json.hpp:6364-6502 | a child is indented by its depth times the indent, the closing bracket by one step less, empty containers take no line, names are followed by a colon and a space |
| JsonDump.DumpThenParse | src/json.hpp:9187-9201 | the same with scanner and parser run on the printed text |
| IPv4Reassembly.IPv4Stream.AddFragment | lib/libtins/src/ip_reassembler.cpp:46-66 | the fragment goes in front of the first one with a larger offset, duplicates are dropped, size, end and protocol follow |
| IPv4Reassembly.IPv4Stream.AllocatePdu | lib/libtins/src/ip_reassembler.cpp:72-89 | the joined bytes, or nothing if a fragment is not where the 16-bit offset expects it |
| IPv4Reassembly.IPv4Reassembler.Process | lib/libtins/src/ip_reassembler.cpp:107-135 | the answer, the packet and the streams after one packet |
| IPv4Reassembly.IPv4Reassembler.Feed | lib/libtins/src/ip_reassembler.cpp:113-116 | adding a fragment to one stream leaves the others alone |
| IPv4Reassembly.IPv4Reassembler.ClearStreams | lib/libtins/src/ip_reassembler.cpp:153-155 | all streams are forgotten |
| IPv4Reassembly.IPv4Reassembler.RemoveStream | lib/libtins/src/ip_reassembler.cpp:157-164 | exactly the stream of the identifier and the two addresses, in either order, is forgotten |
| IPv4ReassemblyLaw.OtherStreamsUntouched | lib/libtins/src/ip_reassembler.cpp:137-151 | a packet changes no stream but that of its own identifier and addresses |
| IPv4ReassemblyLaw.StreamIsShared | lib/libtins/src/ip_reassembler.cpp:137-151 | two packets share a stream if and only if their identifiers agree and their addresses agree in one order or the other |
| IPv4ReassemblyLaw.NotFragmentedExactly | lib/libtins/src/ip_reassembler.cpp:107-135 | a packet is answered as not fragmented if and only if it has no payload, or neither the MF flag nor an offset; then nothing changes |
| IPv4ReassemblyLaw.JoinedTiles | lib/libtins/src/ip_reassembler.cpp:76-84 | with fragments shorter than 65536 bytes the wrap of the running offset never hides a gap |
| IPv4ReassemblyLaw.StreamSummary | lib/libtins/src/ip_reassembler.cpp:46-66 | after any packets in any order: sorted offsets, the first fragment for every offset kept, sizes added up, the end taken from the last kept fragment without MF |
| IPv4ReassemblyLaw.AllocatedTiles | lib/libtins/src/ip_reassembler.cpp:68-89 | a complete stream is allocated if and only if its fragments tile from 0, and then its bytes end where the last kept fragment without MF ends |
| IPv4ReassemblyLaw.ReassembledTiles | lib/libtins/src/ip_reassembler.cpp:107-135 | for every run of arbitrary packets: an answer of reassembled means the kept fragments tile without gap or overlap, and the packet carries their bytes and the protocol of the one at offset 0; any other answer leaves the packet unchanged |
| IPv4ReassemblyLaw.StreamsArePending | lib/libtins/src/ip_reassembler.cpp:111-124 | the stream of an identifier and two addresses is what the fragments since its last completion have made of it |
| IPv4ReassemblyLaw.PieceArrives | lib/libtins/src/ip_reassembler.cpp:46-66 | a piece of a datagram takes its place among those that have arrived, or is dropped as a duplicate |
| IPv4ReassemblyLaw.CompleteExactly | lib/libtins/src/ip_reassembler.cpp:68-70 | the sizes agree if and only if no piece is missing |
| IPv4ReassemblyLaw.AllPiecesAllocated | lib/libtins/src/ip_reassembler.cpp:72-89 | all pieces together give the original payload with the first fragment's protocol |
| IPv4ReassemblyLaw.StartIsAligned | lib/libtins/src/ip_reassembler.cpp:91-93 | every cut of a valid fragmentation is representable as a 13-bit offset in 8-byte blocks |
| IPv4ReassemblyLaw.EveryDelivery | lib/libtins/src/ip_reassembler.cpp:107-135 | for every fragmentation, order, duplication and interleaving with packets of other identifiers or addresses: a piece is answered with reassembled exactly when it is the last one missing, with original payload and the first fragment's protocol, and the stream is gone |
| IPv4ReassemblyLaw.LastMissingPiece | lib/libtins/src/ip_reassembler.cpp:107-135 | until the first completion, a piece completes the datagram exactly if with it all pieces have been seen |
| HandshakeCapture.RSNHandshakeCapturer.ProcessPacket | lib/libtins/src/handshake_capturer.cpp:43-83 | flows, report and list of completed handshakes after one packet |
| HandshakeCapture.RSNHandshakeCapturer.DoInsert | lib/libtins/src/handshake_capturer.cpp:85-102 | a message is added at its place, skipped as a repetition, or clears the entry |
| HandshakeCapture.FlowsAreIndependent | lib/libtins/src/handshake_capturer.cpp:50-53 | what is kept for two addresses depends on the messages between them only |
| HandshakeCapture.FlowIsShared | lib/libtins/src/handshake_capturer.cpp:50-53 | two frames share a flow if and only if their addresses agree in one order or the other; the smaller address comes first |
| HandshakeCapture.KindByFlags | lib/libtins/src/handshake_capturer.cpp:55-79 | the flag patterns of the four messages; every other frame is none of them |
| HandshakeCapture.EndingIsExact | lib/libtins/src/handshake_capturer.cpp:55-79 | the recognised endings of a history are those of the regular expressions 1, 1 2+ and 1 2+ 3+ |
| HandshakeCapture.EntryHoldsEnding | lib/libtins/src/handshake_capturer.cpp:85-102 | the entry of a flow holds exactly the frames of the ending of its history |
| HandshakeCapture.ReportedExactly | lib/libtins/src/handshake_capturer.cpp:43-102 | for whole runs: a handshake is reported if and only if the messages between the two addresses, in either direction, end in 1 2+ 3+ 4, and the record is the latest first message, the first second, the first third and the fourth one |
| DnsWire.EncodeDomainName | lib/libtins/src/dns.cpp:288-302 | the loop over the dots writes every label after its length and a final zero |
| DnsWire.ComposeName | lib/libtins/src/dns.cpp:340-387 | the loop over the labels yields the name and the bytes it takes, or rejects it as malformed |
| DnsFormat.WrittenName | lib/libtins/src/dns.cpp:288-302 | the bytes of a name: each label after its length, and a zero at the end |
| DnsFormat.WrittenQuery | lib/libtins/src/dns.cpp:173-196 | the bytes of a question: name, type and class with the high byte first |
| DnsFormat.WrittenResource | lib/libtins/src/dns.cpp:208-270 | the bytes of a record: name, type, class, time to live, size, the preference of an MX record, and data, which is a name for the types 2, 5, 12 and 15 |
| DnsFormat.DataByType | lib/libtins/src/dns.cpp:439-478 | how the data of each record type is read, by number |
| DnsFormat.LongNameIsMalformed | lib/libtins/src/dns.cpp:365-372 | a name of more than 255 characters is malformed |
| DnsFormat.CutLabelIsMalformed | lib/libtins/src/dns.cpp:365-372 | a label that does not fit into the message is malformed, for the getters and for the parsing constructor |
| DnsFormat.PointerIsSkipped | lib/libtins/src/dns.cpp:87-106 | a compression pointer takes two bytes and ends the name |
| DnsFormat.CutQueryIsMalformed | lib/libtins/src/dns.cpp:544-559 | a question of which less than everything belongs to its section is malformed |
| DnsFormat.CutResourceIsMalformed | lib/libtins/src/dns.cpp:417-490 | so is a record |
| DnsWire.NameRoundTrip | lib/libtins/src/dns.cpp:288-302 | every valid name is read back from its encoding, whatever follows |
| DnsWire.QueriesRoundTrip | lib/libtins/src/dns.cpp:544-559 | the questions written one after the other are read back |
| DnsWire.ResourceRoundTrip | lib/libtins/src/dns.cpp:208-270 | a record of any type but DNAM is read back from the bytes written for it, MX preference, names in the data and SOA data included |
| DnsWire.AuthorityDataOf | lib/libtins/src/dns.cpp:461-472 | two valid names, encoded, and five 32-bit numbers are SOA data |
| DnsWire.AuthorityRoundTrip | lib/libtins/src/dns.cpp:460-473 | the data of an SOA record is taken apart into two names and five numbers and put together again unchanged |
| DnsWire.DnamIsDecoded | lib/libtins/src/dns.cpp:451-459 | the data of a DNAM record is written as it is and read as a name: an encoded name comes back decoded, never as it was |
| DnsWire.ResourcesRoundTrip | lib/libtins/src/dns.cpp:417-490 | the records of a section are read back |
| DnsWire.ReadAllQueries | lib/libtins/src/dns.cpp:544-559 | the loop over the question section |
| DnsWire.ConvertRecords | lib/libtins/src/dns.cpp:417-490 | the loop over a record section |
| DnsWire.ReadDataAt | lib/libtins/src/dns.cpp:443-478 | the switch over the record types |
| DnsWire.QueriesAreSkipped | lib/libtins/src/dns.cpp:74-77 | skipping as many questions as were written leads to the end of the section |
| DnsWire.RecordsAreSkipped | lib/libtins/src/dns.cpp:108-119 | skipping as many records as were written leads to the end of the section |
| DnsMessage.SkipToNameEnd | lib/libtins/src/dns.cpp:87-106 | the position behind a name, compression pointers included |
| DnsMessage.SkipToSectionEnd | lib/libtins/src/dns.cpp:108-119 | the position behind a number of records |
| DnsMessage.ParseIndices | lib/libtins/src/dns.cpp:65-85 | the parsing constructor, as far as the indices go |
| DnsMessage.LayoutIsParsed | lib/libtins/src/dns.cpp:65-85 | parsing the bytes of a message finds the boundaries of its sections again |
| DnsMessage.Dns.AddQuery | lib/libtins/src/dns.cpp:173-196 | in section order, the question is appended to its section and all three indices move |
| DnsMessage.Dns.AddRecord | lib/libtins/src/dns.cpp:208-270 | the bytes of a record are put at the end of the sections so far |
| DnsMessage.Dns.AddAnswer | lib/libtins/src/dns.cpp:198-206 | in section order, the record is appended to the answers and the later indices move |
| DnsMessage.Dns.AddAuthority | lib/libtins/src/dns.cpp:272-279 | the same for the authority section |
| DnsMessage.Dns.AddAdditional | lib/libtins/src/dns.cpp:281-286 | the same for the additional section |
| DnsMessage.Dns.Queries | lib/libtins/src/dns.cpp:544-559 | the getter returns exactly the added questions |
| DnsMessage.Dns.Answers | lib/libtins/src/dns.cpp:561-571 | the getter returns exactly the added answers |
| DnsMessage.Dns.Authority | lib/libtins/src/dns.cpp:573-583 | the getter returns exactly the added authority records |
| DnsMessage.Dns.Additional | lib/libtins/src/dns.cpp:585-595 | the getter returns exactly the added additional records |
| DnsMessage.Dns.Reparse | lib/libtins/src/dns.cpp:65-85 | parsing the serialised message recovers the same three indices |
| DnsMessage.Build | lib/libtins/src/dns.cpp:173-286 | whatever lists are added in section order, the message holds exactly those |
| Failover.BackupServer.Callback | src/arpsniffer.hpp:48-72 | one ARP packet: the switch of the configuration, the heartbeat count and the new timer |
| Failover.BackupServer.EndTimer | src/arpsniffer.hpp:93-98 | the comparison of the counts when the time of a timer is over |
| Failover.BackupServer.Loop | src/pico-mod.hpp:54-72 | one round of the main loop |
| Failover.EveryRun | src/arpsniffer.hpp:48-101 | the invariant of every possible interleaving |
| Failover.TimeOutIsLate | src/arpsniffer.hpp:74-101 | a timeout happens at most once, and only when more than 1500000 microseconds have passed since the last heartbeat; without a heartbeat never |
| Failover.TakeOverExactly | src/pico-mod.hpp:52-72 | the flag is set if and only if a timeout has happened; the count and the main server's address are then frozen; backup ends with the first ARP packet after it; the program starts once, when the main loop comes round after that |
| Failover.TakeOverIsReachable | src/arpsniffer.hpp:74-101 | the timer of the last heartbeat is never lost: after a heartbeat, 1500001 microseconds of silence always allow the take-over |
| Echo.EchoServer.ReadSome | src/echoserver.hpp:140-147 | one read: what the socket has goes behind what is pending |
| Echo.EchoServer.ReadAll | src/echoserver.hpp:139-148 | the reading loop ends, keeps the buffer in bounds, conserves the bytes, and stops only when the buffer is full or the socket, asked once more, has nothing |
| Echo.EchoServer.WriteSome | src/echoserver.hpp:215-223 | one write: what the socket takes leaves the buffer at its front |
| Echo.EchoServer.SendResp | src/echoserver.hpp:210-228 | the writing loop ends, conserves the bytes and returns how many were taken; afterwards the buffer is empty, or the socket has been asked and took nothing |
| Echo.EchoServer.OnReadable | src/echoserver.hpp:134-155 | the branch for data: reads, and sends on a main server exactly if the flag for writing was set |
| Echo.EchoServer.OnWritable | src/echoserver.hpp:199-207 | the branch for writing: a main server sends until the buffer is empty or the socket refuses |
| Echo.EchoServer.CbTcpServer | src/echoserver.hpp:130-208 | every event conserves the bytes; a main server that can write, or gets data after it had nothing to write, sends until the buffer is empty or a write is refused, and is complete if no write is; data is read until the buffer is full or there is no more; a backup never sends; the flag for writing follows the last result; without data or a chance to write the buffer stays as it is; the socket is shut down exactly on a close after everything was read |
| Echo.Serve | src/echoserver.hpp:130-228 | any run of one connection: what was received is what was sent followed by the bytes in the buffer, nothing more than what has arrived; if no write was ever refused, everything received has been sent after a call for writing on a main server; a server that stays a backup sends nothing |

## Left out

- JsonPatch.Patch: `patch` edits the document in place through references; the model works on values and returns the edited document, so aliasing between references is not captured. The operation `copy` overwrites instead of inserting, as in the code.
- Negative indices, which `operator[]` would turn into huge ones; they do not occur in the paths of `diff`.
- JsonFlatten.Unflatten: `get_and_create` writes through references; the model returns the changed document.
- JsonNumber.GetNumber: the conversion of floating-point numerals by `strtod` is a parameter of the parser, since its rounding is foreign code.
- JsonDump.ParseDump: the printing of doubles by the stream is a parameter of which only this is assumed: finite ones are printed as numbers of the JSON grammar, the others as `nan` or `inf` with or without a minus sign. Which doubles survive 15 digits is not decided. The two zeros of a double are one value.
- JsonScanner.Lexer.Scan: the input is a byte sequence with a NUL byte behind it; filling the line buffer from streams and the byte-order mark are not modelled.
- JsonParser.Parser.ParseInternal: the parser callback and discarded values are not modelled, and the text of exceptions is dropped.
- Parsing of pointers as `json_pointer` objects beyond their tokens, `operator/`, and iteration over JSON values would only add easy members.
- JSON ordering `operator<` and numeric comparison across float kinds other than equality.
- IPv4Reassembly.IPv4Reassembler.Process: the choice of a decoder for the payload, and the exceptions such a decoder can throw, are not modelled; sizes are natural numbers; a packet is a value that is returned changed.
- Datagrams with a fragment of 65536 bytes or more, which no IPv4 packet can carry.
- HandshakeCapture.RSNHandshakeCapturer.ProcessPacket: an EAPOL frame is its flags and opaque content; addresses are numbers.
- DnsMessage.Dns.AddQuery: stated for building in section order (questions, answers, authority, additional). Out of order, `update_records` walks existing records, and `update_dname` stops at the terminating zero of an uncompressed name instead of behind it, so no clean statement holds.
- DnsWire.ComposeName: compression pointers and reading past a missing terminator end in the result `Unmodelled`.
- DnsWire.ReadAllQueries: questions with compressed names end in `Unmodelled`, see `ComposeName`.
- DnsWire.ConvertRecords: records with compressed names end in `Unmodelled`, see `ComposeName`.
- DnsWire.ReadDataAt: IPv4 and IPv6 addresses stand for their bytes, their textual form is not modelled.
- DnsWire.ResourceRoundTrip: DNAM records are excluded, since they are not read back (`DnamIsDecoded`); names are valid, that is, made of labels of 1 to 63 bytes without zero and at most 255 bytes long, since `encode_domain_name` writes others unchecked.
- DnsWire.ResourcesRoundTrip: the same exclusions.
- DnsWire.RecordsAreSkipped: the same exclusions.
- DnsMessage.Dns.AddRecord: the same exclusions, and records are appended, not inserted before others.
- DnsMessage.Dns.AddAnswer: the same; the authority and additional sections are still empty.
- DnsMessage.Dns.AddAuthority: the same; the additional section is still empty.
- DnsMessage.Dns.AddAdditional: the same exclusions.
- DnsMessage.Build: the same exclusions.
- IPv4Reassembly.IPv4Stream.AllocatePdu: yields the joined bytes and the protocol; the decoder that `pdu_from_flag` picks for them is foreign code.
- DnsMessage.Dns.Reparse: assumes fewer than 65536 records in a section, the range of the count fields.
- Failover.BackupServer.Callback: each callback and each comparison of a timer is one atomic step; data races between the threads are not modelled, the heartbeat count does not overflow, and the clock does not run backwards.
- Echo.Serve: one connection; several connections would share the one global buffer. Sockets, their options and the deferred exit are reduced to the events and the amounts that reads and writes move.
- Fixed header setters, simple option lists, checksums, sniffers, senders, network interfaces and WPA or WEP cryptography of the packet library.
