# Verification model of loro-c

loro-c puts a C ABI (`loro-c-api`, Rust) in front of the `loro` library and a C++ API
(`include/loro.hpp`) on top of it. Most of both layers forwards calls. This project models the logic
they add themselves, and proves what it promises:

* the JSON reader and writer of `loro.hpp`, against RFC 8259 and RFC 3629;
* the codecs that carry container ids, event paths, version-vector spans and counters, key lists and
  peer lists across the boundary;
* the typed value bridge (`to_c_value`, `from_c_value`) over reference-counted value nodes;
* rich text, read as typed segments and as JSON;
* the ownership of container handles.

## How it is modelled

`bytes` is `seq<Byte>`, a byte a number below 256; C++ strings are bytes and nothing makes them UTF-8.
`I64`, `U64`, `I32` are the machine ranges and every cast is written out (`Decimal.ToI64` and its
siblings). A double is its 64-bit pattern. Three library functions are parameters of the model, so
every theorem holds for each choice of them: `std::stod` (`Stod`, may fail), `printf("%.17g")`
(`Format`) and the cast of a double to `int64_t` (`Truncate`). C++ exceptions are the failures of
`Outcome.Result`, with a named constant for each message.

**JSON.** `JsonParser.JsonParser` is the parser class with its cursor; each of its methods is proved
equal, cursor included, to a function of `Reader`. `Grammar.Tree` is a concrete syntax tree with all its
white space and spellings, `Text` its text, `Denote` its document; `Fits` says what the parser takes,
`Rfc8259.IsRfc` what the RFC allows, which is less. `Completeness` and `Soundness` join the two sides:
`Rfc8259.ParseIffTree` is the exact language of the parser. `Denote` is the code's own reading of a text;
`Rfc8259.Means` is the RFC's, which differs in strings only: `Surrogates.ItemsMeaning` makes one character
of an escaped surrogate pair. `Documents.Doc` is a document as serde_json holds it, with its objects as
maps, and `Documents.Renders(text, d)` holds for every RFC 8259 text of that content, whatever its white
space, escapes (surrogate pairs included) and member order. The codec theorems assume `Renders` only, hence
nothing about the serializer; where a surrogate pair would spoil the result, the theorem says so with
`Surrogates.NoPairEscape`, one left-to-right scan over the text.

What the parser, the printer and the grammar share (escapes, digits, white space, brackets, field names) is
also stated byte by byte, for every input, in `Spellings` and `CidSpellings` and at the end of the codecs.
The shifts and ors of the source are written as sums; `BitFields` proves on bit-vectors that they are the
same. Every lemma switches automatic induction off, so that each inductive proof is the one that is written.

**Typed values.** `ValueHeap` holds boxes (`*mut LoroValue`) on inner values whose lists and maps are
shared nodes. A node never changes: a push or an insert clones the list or map, changes the clone and makes
a new node of it, as the C functions do, shared or not. `ValueHeap.ValueStep` is the same set of calls on
values that share nothing. `ValueAbi` is the C functions in place and `ValueBridge` the C++ on top, with the
map of live boxes as its ledger.

**Handles.** `Ownership.World` has the live handles, the strong count of every state that is alive and
the live C++ wrappers. A call is a chain of C steps and a step that reads, casts or frees a handle that
is not live (or of another type) is a `Fault`. The library's answers (found, accepted, resolved) are part
of the call, so a theorem over all runs covers every answer. `Wrappers.Session` is the imperative code;
each of its methods is proved to do what `Ownership.Run` says. `Effects` states what each call does to the
handles and wrappers, and `Lifetimes` what follows over runs.

## What came out

* The parser accepts every RFC 8259 text whose integers lie in [-2^63, 2^64) (and whose other numbers
  `std::stod` takes), and no other RFC text. It reads it as the RFC says exactly when the text escapes no
  surrogate pair: `"\ud83d\ude00"` becomes six bytes that are no UTF-8, not the four of U+1F600
  (`Rfc8259.PairIsSplit`). It accepts more than the RFC: raw control bytes in strings,
  leading zeros, and anything behind the document, since `parse()` never looks (loro.hpp:749-754).
* A value comes back from its JSON text exactly when each of its doubles prints as a number with a fraction
  or exponent that `std::stod` reads back. 2.0 prints as `2` and comes back as an integer
  (`RoundTrip.WholeDoubleComesBackInteger`), in spite of the "round-trip" in the comment at loro.hpp:706;
  an infinity prints as `inf`, and the whole text is refused (`RoundTrip.InfinityRefused`).
* Surrogate escapes are the only way to get ill-formed strings out of well-formed text.
* A root container with an empty name has a cid string that the parser refuses, and a seq index of 2^32
  or more is cut to its low 32 bits. Nothing else but an escaped surrogate pair keeps an event path from
  arriving.
* When `to_c_value` throws inside a list or map, the boxes under construction are never freed
  (`ValueBridge.Leaks` says how many; the least is a list that holds one container). A string that is no
  UTF-8 throws inside a list or map, and turns into null at top level.
* `insert_container` under a key that is no UTF-8 takes the child from its wrapper and then drops the
  handle (map.rs:250-257), against "Consumes `child`" in its documentation. `Ownership.RunsAreSafe` shows
  this is the only way to lose a handle.

## Model

| member | source | states |
|---|---|---|
| Decimal.U64ThroughI64 | include/loro.hpp:947-955 | A u64 kept as int64 and cast back is the same u64, above 2^63 too |
| Json.IntegerRead | include/loro.hpp:951-956 | Any integer lexeme, canonical or not, is read as its value modulo 2^64 if that value lies in [-2^63, 2^64), and refused otherwise |
| Json.DecimalRead | include/loro.hpp:924-959 | The canonical decimal of n is read exactly when n is in [-2^63, 2^64), congruent to n modulo 2^64, and casts back to n when n is not negative |
| Spellings.DigitsSpelled | include/loro.hpp:951-955 | The weight of each digit, at every place of a number |
| Spellings.DecimalSpelled | include/loro.hpp:1023-1024 | The sign and digits that std::to_string writes |
| Decimal.IntegersRead | include/loro.hpp:672-673 | What std::stoll and std::stoull make of any text: white space, a sign, digits and anything behind them |
| Json.FindIn | include/loro.hpp:735-740 | Lookup returns the first member of that key, and nothing exactly when there is none |
| LoroValues.EntriesAgreeWithFind | include/loro.hpp:981-986 | json_to_value keeps, at every key, the value that find returns, also when a key occurs twice |
| Reader.SkipSpaceStops | include/loro.hpp:764-768 | skip_ws passes over white space only and stops at the first other byte |
| Reader.ValueAt | include/loro.hpp:771-787 | On every byte string reading ends with a value or an error, and a value consumes at least one byte and stays inside the text |
| JsonParser.JsonParser.SkipWhite | include/loro.hpp:764-768 | Moves the cursor over the whole run of white space |
| JsonParser.JsonParser.ParseValue | include/loro.hpp:771-787 | Ends, keeps the cursor inside the text, and gives the value, error and cursor of the specification |
| JsonParser.JsonParser.ParseObject | include/loro.hpp:789-819 | The member loop: members in order, duplicates kept, each error at its place |
| JsonParser.JsonParser.ParseMember | include/loro.hpp:799-805 | One key, colon and value |
| JsonParser.JsonParser.ParseArray | include/loro.hpp:821-845 | The element loop: elements in order, each error at its place |
| JsonParser.JsonParser.ParseString | include/loro.hpp:847-897 | The character loop, up to the closing quote or the end of the text |
| JsonParser.JsonParser.ParseEscape | include/loro.hpp:854-891 | Each escape adds its bytes, and an unknown or cut one is an error |
| JsonParser.JsonParser.ParseHex4 | include/loro.hpp:867-876 | Four hex digits of either case as a number, consuming exactly them |
| JsonParser.JsonParser.ParseBool | include/loro.hpp:899-912 | true and false, or an error |
| JsonParser.JsonParser.ParseNull | include/loro.hpp:914-922 | null, or an error |
| JsonParser.JsonParser.ParseNumber | include/loro.hpp:924-959 | The longest run of number bytes, by std::stod if a byte says so, otherwise as an integer |
| JsonParser.JsonParser.ParseDocument | include/loro.hpp:749-754 | One value with white space around it; what follows is not looked at |
| JsonParser.ParseJson | include/loro.hpp:962 | The result of the whole parse is the specification's, for every input |
| Spellings.EscapesSpelled | include/loro.hpp:854-865 | A backslash and each of the eight letters give the byte of section 7 of RFC 8259, by value, at every place of every text; any other letter but u is refused |
| Spellings.UnicodeSpelled | include/loro.hpp:866-889 | A backslash, a u and any four digits, by value and in either case, give the octets of the code point with these digits |
| Spellings.RawSpelled | include/loro.hpp:851-853 | The quote ends a string, and every other byte but the backslash stands for itself |
| Spellings.HexDigitsSpelled | include/loro.hpp:872-875 | Which bytes are hexadecimal digits and the value of each of the 22 |
| Spellings.SpaceSpelled | include/loro.hpp:764-768 | The four bytes of white space by value |
| Spellings.LexemesSpelled | include/loro.hpp:927-944 | The bytes of a number by value; std::stod is called exactly for a lexeme with more than digits behind its sign |
| Spellings.StringErrors | include/loro.hpp:847-896 | What a string that is missing, cut or wrongly escaped throws |
| Spellings.MemberErrors | include/loro.hpp:799-804 | What a member throws without its key or colon, or with a bad key |
| Spellings.SeparatorErrors | include/loro.hpp:806-843 | Behind a member or element only a comma or the closing bracket is taken, and what else throws |
| Spellings.ScalarErrors | include/loro.hpp:771-787 | What a bad literal throws, and what a byte that starts no value |
| Completeness.EmitIsEncode | include/loro.hpp:877-887 | What the backslash-u branch emits is the encoding of section 3 of RFC 3629 |
| Utf8.DecodeEncode | include/loro.hpp:877-887 | Decoding the one to three emitted bytes gives the code point back |
| Utf8.RunEncodeBmp | include/loro.hpp:877-887 | The emitted bytes are well-formed UTF-8 exactly when the code point is no surrogate |
| Utf8.WellFormedIffEncoded | include/loro.hpp:877-887 | The automaton for section 4 of RFC 3629 accepts exactly the encodings of Unicode scalar values, so the emitted form is the shortest |
| BitFields.EmitsTwo | include/loro.hpp:880-882 | From 0x80 to 0x7FF the branch emits exactly the two bytes that its shifts, masks and ors make |
| BitFields.EmitsThree | include/loro.hpp:883-886 | Likewise the three bytes from 0x800 on |
| Spellings.FourOctets | include/loro.hpp:877 | The four octets beyond the branch, of which escaped pairs would be made, by value |
| BitFields.NibbleBits | include/loro.hpp:868-874 | Shifting in a hexadecimal digit is multiplying by 16 and adding it |
| Completeness.ValueComplete | include/loro.hpp:771-959 | Wherever a tree's text stands, reading there gives the tree's document and stops at the text's end |
| Completeness.StringComplete | include/loro.hpp:847-897 | A string literal is read as the bytes its characters denote, up to and with the closing quote |
| Soundness.ValueSound | include/loro.hpp:771-959 | Whatever is read is white space and the text of a tree, with that tree's document as the value |
| Rfc8259.ParseIffTree | include/loro.hpp:749-959 | The parser returns v for a text exactly when the text starts with white space and a tree that denotes v |
| Rfc8259.DenotesIffReadable | include/loro.hpp:939-956 | A tree has a document exactly when its integers are in [-2^63, 2^64) and std::stod takes its other numbers |
| Rfc8259.NumberLexeme | include/loro.hpp:927-942 | Every number of section 6 of RFC 8259 is taken whole, as a double exactly when it has a fraction or exponent |
| Rfc8259.RfcComplete | include/loro.hpp:749-959 | Every text of RFC 8259, with any white space, is accepted exactly when its numbers can be read, and then read as the document it denotes exactly when no escape of a high surrogate stands directly in front of one of a low surrogate |
| Rfc8259.MeansIff | include/loro.hpp:847-897 | The parser's document of a tree is the RFC's, at every nesting and with duplicate keys, exactly when no string or key escapes a surrogate pair |
| Rfc8259.PairIsSplit | include/loro.hpp:877-887 | The failing text: the escaped form of U+1F600 denotes four bytes, and the parser makes six of it |
| Spellings.TextSpelled | include/loro.hpp:773-845 | The brackets, quotes and literals of every text, by value |
| Spellings.ElementsSpelled | include/loro.hpp:830-843 | The commas and the bracket of a list, by value |
| Spellings.MembersSpelled | include/loro.hpp:798-817 | The quotes, colons, commas and the brace of an object, by value |
| Spellings.CharactersSpelled | include/loro.hpp:851-894 | Which characters section 7 of RFC 8259 allows in a string and how each is written |
| Spellings.NumbersSpelled | include/loro.hpp:927-942 | The numbers of section 6 of RFC 8259, by value |
| Spellings.GrammarSpelled | include/loro.hpp:749-959 | Which trees are texts of the RFC: white space anywhere between tokens, any strings and numbers, any nesting |
| Spellings.PairsSpelled | include/loro.hpp:877 | Every code point beyond 2^16 is what its two surrogates denote |
| Surrogates.MeaningIff | include/loro.hpp:866-889 | For one string: the parser's bytes are the RFC's exactly when there is no pair, and longer otherwise |
| Surrogates.TreeEscapes | include/loro.hpp:854-891 | One scan over the text, respecting escaped backslashes, finds exactly the surrogates and pairs that its strings and keys escape |
| JsonUtf8.Utf8Preserved | include/loro.hpp:847-897 | In an accepted text of well-formed UTF-8 every parsed string and key is well-formed exactly when no escape names a surrogate |
| JsonUtf8.ParsedIsUtf8 | include/loro.hpp:847-897 | On the text alone: what was read of a well-formed text gives well-formed strings and keys only, exactly when the scan finds no escaped surrogate in the part that was read; none in the whole text suffices |
| Printer.JsonEscape | include/loro.hpp:991-1011 | Appends the quoted string with each byte escaped, and keeps what was there |
| Spellings.PrintedSpelled | include/loro.hpp:994-1007 | Which escape json_escape writes for each of the 256 bytes |
| Printer.PrintItemsDenote | include/loro.hpp:991-1011 | The escaped string is one of the RFC and denotes the bytes it was made of |
| Printer.EscapeUtf8 | include/loro.hpp:991-1011 | The escaped text is well-formed UTF-8 exactly when the string is |
| Printer.ValueToJson | include/loro.hpp:1015-1061 | Succeeds exactly on values without binary and containers, and writes the text of a tree that prints the value, whatever order maps are walked in |
| Printer.ListToJson | include/loro.hpp:1033-1042 | The list loop: elements in order between commas, without white space |
| Printer.MapToJson | include/loro.hpp:1043-1054 | The map loop: every entry once, in any order |
| PrintedUtf8.PrintedIsUtf8 | include/loro.hpp:1015-1061 | The whole printed text is well-formed UTF-8 exactly when every string and key of the value is |
| RoundTrip.PrintsDoc | include/loro.hpp:1015-1061 | What is printed for a value with finite doubles is RFC 8259 text with the value as its content, and escapes no surrogate pair |
| RoundTrip.PrintParse | include/loro.hpp:745-1061 | json_to_value of the parsed print is the value again if each double prints as a number with a fraction or exponent that std::stod reads back, and with printf as the printer only if |
| NonFinite.LooseRefused | include/loro.hpp:771-959 | A text with inf or nan in place of a number is refused wherever that stands, at any depth and whatever is in front of it or behind |
| RoundTrip.InfinityRefused | include/loro.hpp:1025-1028 | The failing value: an infinity prints as inf, and parsing that throws |
| RoundTrip.PrintParseInside | include/loro.hpp:771-1061 | The same anywhere inside a larger text whose next byte extends no number, and the cursor stops exactly at the end |
| RoundTrip.WholeDoubleComesBackInteger | include/loro.hpp:1025-1028 | A double that prints as an integer comes back as that integer and not as itself |
| RoundTrip.RenderedValue | include/loro.hpp:962-989 | Any RFC 8259 rendering of a value with finite doubles, by any writer, is read back as the value exactly when its doubles survive and the text escapes no surrogate pair |
| RoundTrip.ParsedHasForm | include/loro.hpp:966-989 | What json_to_value makes can always be printed |
| RoundTrip.NormalForm | include/loro.hpp:735-1061 | Printing what an accepted text means and parsing again changes nothing if its doubles survive, with printf only if; without doubles it never changes anything |
| Documents.ParseRendered | include/loro.hpp:749-959 | Every rendering of a document is accepted exactly when its numbers can be read, and then read as that document exactly when it escapes no surrogate pair |
| Documents.EveryTreeRenders | include/loro.hpp:749-959 | Every RFC 8259 text without duplicate names renders some document, so the theorems about renderings cover it |
| Documents.AsciiRendered | include/loro.hpp:847-897 | No rendering of a document of ASCII strings can escape a surrogate pair |
| Documents.ParseResembles | include/loro.hpp:749-959 | With ASCII names, everything but the strings arrives in every rendering, surrogate pairs or not |
| Cid.RootText | include/loro.hpp:656-666 | The string of a root id is read back for every name but the empty one, which is refused |
| Cid.NormalText | include/loro.hpp:667-676 | The string of a normal id is read back for every u64 peer and i32 counter |
| Cid.RootParsed | include/loro.hpp:659-666 | A string that is read as a root id of a known type is the string of that id |
| Cid.CidRoundTrip | include/loro.hpp:620-686 | An id survives its cid string exactly when its root name is not empty and its type's kind is one the string can name |
| Cid.CidInjective | include/loro.hpp:678-686 | Two such ids with the same string are the same id |
| Cid.CidNormalForm | include/loro.hpp:656-676 | What the parser accepts is read as an id that survives its own string |
| CidSpellings.RootSpelled | include/loro.hpp:656-686 | For each of the six types, the string cid:root-NAME:TYPE, by value, is what is printed and is read as that id; an empty name is refused |
| CidSpellings.NormalSpelled | include/loro.hpp:667-686 | For each of the six types, the string cid:COUNTER@PEER:TYPE, by value, is what is printed and is read as that id |
| CidSpellings.NamesSpelled | include/loro.hpp:620-639 | The names of the types by value, and Unknown(0) for every other name |
| CidSpellings.OthersRefused | include/loro.hpp:657 | A string without the prefix is refused |
| CidSpellings.RootRead | include/loro.hpp:659-666 | Every string behind cid:root-: the last colon cuts it, and without one it is refused |
| CidSpellings.NormalRead | include/loro.hpp:667-675 | Every string with an @ and a colon behind it: the first @ and the last colon cut it, and what is between is read as std::stoll and std::stoull read it |
| CidSpellings.NormalRefused | include/loro.hpp:668-671 | Every other string is refused |
| PathCodec.PathItemsFromJson | include/loro.hpp:3235-3264 | The step loop: steps in order, unusable ones dropped, the first bad cid thrown |
| PathCodec.IndexRead | loro-c-api/src/event.rs:508-514 | A key, seq or node index of any rendering is read as itself, a seq index modulo 2^32 |
| PathCodec.TreeIdRead | loro-c-api/src/event.rs:595-597 | A tree id arrives for every u64 peer and i32 counter |
| PathCodec.PathRoundTrip | loro-c-api/src/event.rs:435-455 | Any rendering of a path with known types is read as the same steps, none dropped, exactly when its root names are not empty, its seq indices are below 2^32 and the text escapes no surrogate pair |
| PathCodec.PathDocsSpelled | loro-c-api/src/event.rs:451-514 | The field names of a path, by value |
| PathCodec.IndexRules | include/loro.hpp:3245-3261 | For every value: a string key wins, then a seq of any kind, then a node object; a seq that is a double is cast, and missing or odd fields are 0 |
| PathCodec.StepRules | include/loro.hpp:3240-3251 | For every value: what drops a step and what throws |
| PathCodec.StepsInOrder | include/loro.hpp:3240-3263 | Steps are read in order and the first that throws ends it |
| VersionCodec.SpansToJsonArray | loro-c-api/src/version.rs:301-312 | Every span of the map once, sorted by peer |
| VersionCodec.SortByPeer | loro-c-api/src/version.rs:305 | Sorted by peer, with the same entries |
| VersionCodec.SortedListingUnique | loro-c-api/src/version.rs:298-312 | The output is deterministic: a map has one sorted listing, whatever order it is walked in |
| VersionCodec.SpanRead | loro-c-api/src/version.rs:290-296 | One span arrives with its u64 peer and both i32 counters |
| VersionCodec.MissingSpan | include/loro.hpp:2549-2560 | The loop of get_missing_span over the parsed array |
| VersionCodec.MissingSpanRoundTrip | include/loro.hpp:2546-2561 | Missing spans arrive unchanged and in order |
| VersionCodec.Fill | include/loro.hpp:2586-2597 | The fill loop, a later span of a peer replacing an earlier one |
| VersionCodec.Diff | include/loro.hpp:2581-2601 | Both sides of the diff from the parsed object |
| VersionCodec.DiffRoundTrip | include/loro.hpp:2581-2601 | Both maps of a diff arrive exactly, for every u64 peer and any rendering |
| VersionCodec.VersionVectorToJson | loro-c-api/src/version.rs:266-270 | One member for each peer, named by the peer in decimal, and no others |
| VersionCodec.ToHashmap | include/loro.hpp:2570-2579 | The loop of to_hashmap, with a key that is no u64 thrown |
| VersionCodec.HashmapRoundTrip | include/loro.hpp:2570-2579 | The counters arrive exactly, for every u64 peer, in any order of members |
| VersionCodec.SpanDocSpelled | loro-c-api/src/version.rs:290-296 | The field names of a span, by value |
| VersionCodec.SpanRules | include/loro.hpp:2551-2558 | For every value: an element is skipped exactly when a field is missing, and the fields are cut to their widths, odd ones being 0 |
| VersionCodec.DiffSpelled | include/loro.hpp:2598-2599 | Which side is retreat and which forward, by value, at both ends |
| VersionCodec.OneSpanStored | include/loro.hpp:2594-2595 | A span is stored under its peer, over one that is there already |
| VersionCodec.CountersSucceed | include/loro.hpp:2575-2576 | to_hashmap throws exactly when some key is no u64 |
| VersionCodec.OneCounterMore | include/loro.hpp:2575-2577 | A counter is stored under its peer, over one that is there already |
| PeerBytes.U64sToLeBytes | loro-c-api/src/awareness.rs:259-265 | Eight bytes for each peer, lowest first |
| PeerBytes.U64sFromBytes | include/loro.hpp:3693-3703 | The whole words of the buffer, each below 2^64 |
| BitFields.LowBytes | include/loro.hpp:3699 | Or-ing a byte into place 1 to 3 of the word is adding it there |
| BitFields.HighBytes | include/loro.hpp:3699 | Likewise in places 4 to 7 |
| PeerBytes.UnpackPacked | include/loro.hpp:3693-3703 | Every peer list survives its buffer |
| PeerBytes.PackUnpacked | include/loro.hpp:3693-3703 | Packing what any buffer holds gives its longest prefix of whole words |
| PeerBytes.WordSpelled | include/loro.hpp:3698-3699 | The weight of each of the eight bytes of a word |
| PeerBytes.WordAt | include/loro.hpp:3697-3701 | Word k stands at byte 8k |
| StringLists.ParseStringArray | include/loro.hpp:1083-1092 | The strings of the array in order; an empty text or another document gives none |
| StringLists.StringArrayRoundTrip | loro-c-api/src/value_typed.rs:395-401 | A list of keys arrives unchanged and in order in any rendering that escapes no surrogate pair, and in no other |
| StringLists.ElementsRead | include/loro.hpp:1088-1090 | For every array: strings are read at their places, everything else is passed over |
| ValueHeap.StepRefines | loro-c-api/src/value_typed.rs:137-206 | Each call changes what the live boxes show exactly as it would change values that share nothing |
| ValueHeap.RunRefines | loro-c-api/src/value_typed.rs:73-206 | The same over every sequence of calls, frees included |
| ValueHeap.OthersUnchanged | loro-c-api/src/value_typed.rs:137-206 | A call on one box leaves the value seen through every other box unchanged |
| ValueAbi.ValueAbi.NewScalar | loro-c-api/src/value_typed.rs:73-124 | A new box with the value, or null for a string that is no UTF-8 |
| ValueAbi.ValueAbi.NewList | loro-c-api/src/value_typed.rs:128-130 | A new box with the empty list |
| ValueAbi.ValueAbi.NewMap | loro-c-api/src/value_typed.rs:166-168 | A new box with the empty map |
| ValueAbi.ValueAbi.ListPush | loro-c-api/src/value_typed.rs:137-161 | Appends a clone of the child if it is given one and the box is a list; otherwise nothing changes |
| ValueAbi.ValueAbi.MapInsert | loro-c-api/src/value_typed.rs:176-206 | Sets the key to a clone of the child if the key is UTF-8 and the box is a map; otherwise nothing changes |
| ValueAbi.ValueAbi.ListGet | loro-c-api/src/value_typed.rs:353-370 | A new box on a clone of the element, or null out of range |
| ValueAbi.ValueAbi.MapGet | loro-c-api/src/value_typed.rs:421-446 | A new box on a clone of the entry, or null |
| ValueAbi.ValueAbi.Release | loro-c-api/src/value_typed.rs:529-537 | Removes this box and no other |
| ValueBridge.ToCValue | include/loro.hpp:1096-1135 | A convertible value becomes exactly one new box that shows it; a top-level string that is no UTF-8 becomes null; else it throws, and the live boxes grow by what Leaks says. No box but the result stays exactly for these and for a bare container |
| ValueBridge.ListToC | include/loro.hpp:1112-1119 | The list loop, which leaves only the finished list behind when it succeeds |
| ValueBridge.PushItem | include/loro.hpp:1116-1117 | One round: the child is pushed and its box freed, also when the push fails |
| ValueBridge.MapToC | include/loro.hpp:1120-1128 | The map loop, in any order |
| ValueBridge.InsertEntry | include/loro.hpp:1124-1126 | One round: the child is inserted and its box freed, also when the insert fails |
| ValueBridge.ThrowLeaks | include/loro.hpp:1112-1132 | Only values that are not convertible throw, and each but a bare container leaves boxes behind |
| ValueBridge.ListOfContainerLeaks | include/loro.hpp:1113-1117 | A list that holds one container leaves exactly one box behind |
| ValueBridge.FromCValue | include/loro.hpp:1173-1227 | Reads the box's value back and leaves the heap and the live boxes exactly as they were, also when it throws |
| ValueBridge.ListFromC | include/loro.hpp:1202-1214 | The element loop, each element's box freed |
| ValueBridge.MapFromC | include/loro.hpp:1163-1169 | All entries, or the error the visitor parked, thrown again; a value that is no map is refused |
| ValueBridge.MapForEach | loro-c-api/src/value_typed.rs:471-497 | With the collector as visitor: shows it every entry or stops at the first failing visit, leaves the live boxes as they were, and runs free_user_data once on every way out |
| ValueBridge.Walk | loro-c-api/src/value_typed.rs:489-494 | The loop with the collector, in any order, each entry's box alive for its visit only |
| Visitors.ForEach | loro-c-api/src/value_typed.rs:471-497 | With any visitor: each entry is visited at most once, none after a visit that asked to stop, all if none did, and the user data is the visits' result in that order |
| Visitors.CollectorVisits | include/loro.hpp:1148-1169 | As such a visitor, in any order, the C++ collector ends with all entries read or with the error that stopped it |
| ValueBridge.Visit | include/loro.hpp:1148-1158 | Emplaces the entry, or parks the error and asks to stop |
| ValueBridge.WalkIsKeysThenGet | loro-c-api/src/value_typed.rs:388-471 | A finished walk collects exactly the keys loro_value_map_keys lists, if the listing escapes no surrogate pair, each with what is read from the box loro_value_map_get returns |
| ValueBridge.CidReadBack | include/loro.hpp:1219-1223 | A container value is read back through its cid string, or refused for an empty root name |
| ValueBridge.RereadSame | include/loro.hpp:1173-1227 | Without containers the value comes back unchanged: binary and doubles keep their kind |
| ValueBridge.ConvertibleReadBack | include/loro.hpp:1096-1227 | from_c_value undoes to_c_value |
| PrintedUtf8.ConvertibleMeans | include/loro.hpp:1096-1135 | The convertible values are those without containers whose strings and keys are well-formed UTF-8 |
| ValueBridge.ThereAndBack | include/loro.hpp:1096-1227 | Converting, reading back and freeing returns a convertible value unchanged and leaves no box |
| RichText.ToDelta | include/loro.hpp:1428-1434 | The segments in order, elements that are none passed over, the first failing visit thrown; the live boxes are left as they were on every way out |
| RichText.VisitElement | loro-c-api/src/container/text.rs:440-459 | One element: passed over if it is no map with a string to insert, otherwise shown once, in a box of its attributes that lives for the visit only |
| RichText.VisitDelta | include/loro.hpp:1237-1250 | The segment with its attributes, or the error; attributes that are no map are refused |
| RichText.RichTextComesBack | include/loro.hpp:1439-1447 | get_richtext_value gives back a value with finite doubles, in any rendering, exactly when its doubles survive and the text escapes no surrogate pair |
| RichText.DeltaIsSegments | loro-c-api/src/container/text.rs:440-459 | The typed walk gives the segments of the list itself exactly when all attributes are maps |
| RichText.SegmentsSpelled | loro-c-api/src/container/text.rs:440-459 | Every list of maps with a string under insert and, where present, a map under attributes, by value, is walked and read from JSON as exactly these segments |
| RichText.OthersPassedOver | loro-c-api/src/container/text.rs:441-446 | An element that is no map, or has no string under insert, adds nothing, anywhere in the list |
| RichText.BadAttributes | include/loro.hpp:1243-1248 | Attributes that are no map stop the walk with an error |
| RichText.TypedAgreesWithJson | loro-c-api/src/container/text.rs:353-462 | Typed and JSON segments agree, in order and with the same attributes, exactly when the attributes are maps, for any rendering that escapes no surrogate pair; otherwise to_delta throws |
| Ownership.RunBooks | include/loro.hpp:1473-1494 | No call touches a dead handle or one of another type, and every call keeps the ledger: one holder for each live handle, and true counts |
| Ownership.RunsAreSafe | include/loro.hpp:2141-2281 | Over every run no next call faults, and the live handles are exactly those in live wrapper fields if and only if no insert took a child under a key that is no UTF-8 |
| Ownership.InsertBooks | loro-c-api/src/container/map.rs:242-266 | Whatever the library answers, the child is consumed, adopted or, under a bad key, lost |
| Ownership.BadKeyLosesHandle | loro-c-api/src/container/map.rs:250-257 | A concrete run after which a live handle is in no wrapper |
| Ownership.StateAlive | README.md:236-240 | A state is alive exactly while a live handle co-owns it, and its count is the number of these |
| Ownership.ReleasedLast | README.md:236-240 | A call that releases a state frees its last handle, in any order of frees |
| Ownership.AllReleased | README.md:236-240 | With all wrappers gone and nothing lost, no handle is live and every state is released |
| Ownership.AsContainerEffect | loro-c-api/src/value_or_container.rs:170-185 | The right type gives one more wrapper that co-owns the same state; the wrong type throws and changes nothing |
| Ownership.AdoptBooks | include/loro.hpp:2182-2218 | Adopting frees the erased handle on both ways out and keeps the ledger |
| Ownership.DestroyBooks | include/loro.hpp:1473-1476 | A destructor takes the wrapper away and frees exactly its handles, and the ledger is kept |
| Effects.NewDocEffect | include/loro.hpp:2822-2826 | A new document has a handle, a wrapper and a state of its own |
| Effects.InitEffect | include/loro.hpp:1353-1362 | A detached container has an erased and a typed handle on a state of its own |
| Effects.DocGetEffect | include/loro.hpp:2226-2245 | A document's container is one more typed handle on the document's state |
| Effects.GetEffect | loro-c-api/src/container/map.rs:165-184 | What a lookup finds is a handle on the parent's state, or on none for a plain value |
| Effects.InsertEffect | loro-c-api/src/container/map.rs:242-266 | The exact handles and wrappers after an insert: the child's erased handle gone, and for an accepted one a typed handle on the parent's state in a new wrapper |
| Effects.GetOrCreateEffect | include/loro.hpp:2275-2281 | An existing child of the right kind is one more handle on the parent's state; otherwise it is an insert |
| Effects.AsValueEffect | include/loro.hpp:2103-2109 | as_value changes neither handles nor wrappers |
| Effects.DestroyEffect | include/loro.hpp:1473-1476 | The wrapper is gone, its handles are freed, and nothing else changes |
| Lifetimes.DestroyAll | include/loro.hpp:1473-1476 | From any world with true books, destroying each live wrapper once, in any order, succeeds and leaves no wrapper and no handle but lost ones |
| Lifetimes.RunsCanEnd | README.md:236-240 | After any run, destroying everything in any order leaves no handle and no state exactly if no insert took a child under a bad key |
| Lifetimes.DocumentStateLives | README.md:236-240 | Over every run, as long as anything obtained from a document lives, directly or through others, it owns the document's state and that is not released |
| Wrappers.Session.InitDetached | include/loro.hpp:1353-1362 | init makes an erased and a typed handle that share one fresh state, in one new wrapper of the kind |
| Wrappers.Session.NewDocument | include/loro.hpp:2822-2826 | A new document handle on a fresh state in one new wrapper, and the ledger kept |
| Wrappers.Session.DocContainer | include/loro.hpp:2226-2245 | A new attached wrapper of the kind on the document's state, or a throw that changes nothing |
| Wrappers.Session.TakeContainer | include/loro.hpp:1486-1492 | Hands out the detached handle and nulls the field; throws on a wrapper that has none |
| Wrappers.Session.ContainerGet | loro-c-api/src/container/any.rs:150-243 | A typed handle on the same state for the right kind, null for another |
| Wrappers.Session.InsertInto | loro-c-api/src/container/map.rs:242-266 | A bad key returns before the child is taken; otherwise the child is consumed, accepted or not |
| Wrappers.Session.AdoptHandle | include/loro.hpp:2182-2218 | The code of adopt leaves the world that Adopt specifies, and returns its new wrapper on the same state exactly for the right kind |
| Wrappers.Session.InsertByKey | include/loro.hpp:2266-2273 | Returns the new attached wrapper of the child's kind on the parent's state exactly for a detached child, a good key and an accepting library, and keeps the ledger |
| Wrappers.Session.GetOrCreateByKey | include/loro.hpp:2275-2281 | Returns a new attached wrapper of the child's kind on the parent's state exactly if a container of that kind is there, or none is and the given one is detached and accepted; the ledger is kept |
| Wrappers.Session.Lookup | include/loro.hpp:2251-2256 | The new value-or-container wrapper of what was found, a container on the parent's state, or null |
| Wrappers.Session.AsTyped | include/loro.hpp:2458-2475 | Returns the new wrapper on the same state exactly for a container of that type, and keeps the ledger |
| Wrappers.Session.ReadValue | include/loro.hpp:2103-2110 | Tells a value from a container; the value box is freed again: handles, counts and wrappers are as before |
| Wrappers.Session.DestroyWrapper | include/loro.hpp:1473-1476 | The wrapper is gone and exactly its handles are freed; the ledger is kept |

## Left out

- The text of doubles: `%.17g` and `std::stod` are parameters, so nothing is said about which doubles print with a fraction. That a value comes back only if its doubles survive is proved for a printer that writes a number, `inf`, `nan` or one of these with a minus sign (`RoundTrip.IsPrintf`), as the C standard says of `%g`.
- RichText.TypedAgreesWithJson: is silent on the agreement when the JSON escapes a surrogate pair, which may fall into a part that no segment shows.
- Error messages of the wrappers: a call that throws is a failure; which of its messages it carries is not stated.
- ValueBridge.WalkIsKeysThenGet: compares the keys for listings that escape no surrogate pair; a key that is listed as one is misread by the parser.
- Visitors.ForEach: a visitor is a function of its user data, the key and the value it is shown. One that makes or frees boxes of its own during a visit is left out, but for the C++ collectors, whose boxes `ValueBridge.MapForEach`, `ValueBridge.Walk` and `RichText.ToDelta` account for.
- Ownership.StateAlive: a handle owns the state it was made on. After an accepted insert the child's own typed handle counts for the detached state only, although `loro_map_get_attached` (map.rs:386-397) can lead from it to the attached container; what `loro` keeps alive behind such a handle is not known here. A child inserted into a detached parent counts for the parent's state from then on.
- Ownership.ReleasedLast: rests on the same two assumptions.
- Numbers of unknown container types as Rust renders them ("Unknown(k)"): the path theorem asks for known types, and a container-valued `LoroValue` crosses by the C++ spelling.
- Depth of the call stack: the recursion of the parser, printer and bridge is unbounded in the model.
- The strong counts of value nodes: a node of `ValueHeap` stays in the heap when its last box is gone; what boxes show does not depend on it.
- The value a segment's attributes are shown in lives on the stack of `loro_text_for_each_delta`; the model gives it a box for the time of the visit.
- Reuse of handle addresses in `Ownership`: addresses are fresh there; `ValueAbi` reuses them.
- The container wrappers of each kind, and the list, movable-list and tree forms of insert and get: one generic wrapper with a kind stands for all, with the map forms of the calls.
- Calls on wrappers that are already destroyed: `shared_ptr` keeps a wrapper alive while it can be called.
- Null pointers, the thread-local last error, panic guards and status codes beyond those a result depends on.
- Error messages: one named constant each.
- `sort_by_key`, `to_string`, `stoll`, `stoull` and `to_le_bytes` are functions written from their documentation.
- The algorithms of the `loro` crate: merging, version-vector algebra, frontiers, checkout, undo, import and export.
- Subscriptions, threads, commit hooks, `loro_ext.hpp`, and everything that only forwards a call.
