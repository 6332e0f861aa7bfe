# Verified model of the JSON engine and the sonar drivers

This project models, in Dafny, the parts of the repository whose correctness is hard to see by reading
them, and proves what they promise:

- **The JSON engine** that the Livox driver includes: the UTF-8 and UTF-16 codecs (`Encodings`,
  `Transcoding`), JSON Pointer with its grammar, its in-place parser and printer and its operations on a
  tree (`PointerSyntax`, `PointerLaws`, `PointerFragments`, `FragmentText`, `PointerText`, `PointerParser`,
  `PointerResolve`, `PointerEffects`, `PointerTree`), the value tree and its equality (`Dom`, `EqualMeaning`),
  the events a tree sends and the document that rebuilds a tree from them (`Events`, `Rebuild`), the indenting
  writer (`PrettyPrint`, `PrettyLayout`, `PrettyWriter`), the pool allocator (`PoolAllocator`, `PoolRuns`) and
  the buffered streams (`BufferedStreams`).
- **The Oculus receiver**: a state machine that cuts a byte stream into packets (`OculusFraming`,
  `PingFields`, `DataRx`).
- **The Ping360 head**: the search for a step that divides the sector, and the sweep over whole runs
  (`HeadScan`, `Ping360`).
- **The fan-image bearing lookup**: binary search and interpolation (`Bearings`).

Where the code works in place, the model does too: `Pointer`, `Tree`, `Document`, `IndentingWriter`,
`MemoryPool`, `FileReadStream`, `IStreamWrapper`, `FileWriteStream`, `Receiver` and `Interface` are classes
whose methods change their fields and buffers. Each such method is proved against a function of the old
state, and the laws are lemmas about these functions. What a function means is stated once more without it, over
the characters, bytes, children or distances that the format or the source speaks of (`PointerText`,
`PointerEffects`, `EqualMeaning`, `PrettyLayout`, `PingFields`, and lemmas beside the functions).
`dafny verify dfyconfig.toml` checks the project.

Conventions. Machine integers are mathematical ones; wherever the width matters (the 32-bit index of a
token, the 64 bits of a JSON number, the 64-bit sizes of the allocator, the 32-bit packet size, the 8-bit masks
of the UTF-8 table) the wrap-around is written out. A text that the original passes as a pointer ends in a zero:
reading past its end sees that zero; only what lies behind the source of a pointer may be anything. A failed
assertion of the original is a result `None`, a precondition, or the state `Stopped`; so is a read past the end
of a received packet, which is undefined. Doubles are reals, infinities, or not a number.

Where the code and its own documentation disagree, the model follows the code:

- `document.h:1104` says an object with a duplicate name compares unequal to every object; see
  `Dom.DuplicatesOnTheLeft` for exactly when it does.
- `pointer.h:103-105` says a numeral out of range has no index; the overflow test lets some through, see
  `PointerFragments.IndexMeetsPromise`.
- RFC 6901 decodes a fragment before splitting it at the / characters; the parser does not, see
  `FragmentText.FragmentMeansDecodedText`.
- `pointer.h:942` looks the name to erase up as a C string; see `PointerResolve.EraseMeetsPromise`.
- `pointer.h:1006` says the source of a pointer need not end in a zero; an empty one is looked behind, see
  `PointerParser.Pointer.Parse`.
- A request for nearly 2^64 bytes is not refused but wraps; see `PoolAllocator.MemoryPool.Malloc`.
- A kept angle can point a sector scan at its edge (`sonar_interface.cpp:86`); see `HeadScan.StaysInside`.

## Model

| member | source | states |
|---|---|---|
| Encodings.ValidUnitIsEncoding | livox_ros2/livox_driver/3rdparty/rapidjson/encodings.h:108-298 | The range table and its masks accept a byte sequence exactly when it is the encoding of a Unicode scalar value: no overlong form, no surrogate, nothing above 0x10FFFF (RFC 3629, sections 3 and 4). |
| Encodings.Utf8Injective | livox_ros2/livox_driver/3rdparty/rapidjson/encodings.h:108-125 | Two code points with the same bytes are the same code point. |
| Encodings.Utf8Spells | livox_ros2/livox_driver/3rdparty/rapidjson/encodings.h:108-125 | The bytes of a code point spell it: as many as its size asks for, a lead byte of that length, and six bits in each byte behind it (RFC 3629, section 3). |
| Encodings.TailCount | livox_ros2/livox_driver/3rdparty/rapidjson/encodings.h:147-211 | How many bytes are taken behind each lead byte, valid or not. |
| Encodings.DecodeUtf8 | livox_ros2/livox_driver/3rdparty/rapidjson/encodings.h:147-211 | For any string and position: the verdict is true exactly when the bytes taken encode a scalar value, which is then the value delivered; the lead byte alone decides how many bytes are taken. |
| Encodings.Validate | livox_ros2/livox_driver/3rdparty/rapidjson/encodings.h:213-267 | Over a plain stream and over a stream of %XY triplets: copies exactly the bytes taken, with the verdict of the decoder on them; the triplet stream stays valid exactly when every byte came from a whole triplet. |
| Encodings.InputStream.Take | livox_ros2/livox_driver/3rdparty/rapidjson/pointer.h:1199-1232 | The triplet stream delivers the byte of a whole triplet, and is marked invalid for good at anything else. |
| Transcoding.WellFormedIsEncoding | livox_ros2/livox_driver/3rdparty/rapidjson/encodings.h:213-267 | A string validates unit after unit up to its end exactly when it is a concatenation of encoded scalar values. |
| Transcoding.EncodeAllInjective | livox_ros2/livox_driver/3rdparty/rapidjson/encodings.h:108-125 | A well-formed string is the encoding of one list of code points only. |
| Transcoding.EncodeUtf8 | livox_ros2/livox_driver/3rdparty/rapidjson/encodings.h:107-125 | Appends the RFC 3629 bytes of the code point to the output, by its four range branches. |
| Transcoding.EncodeUtf16 | livox_ros2/livox_driver/3rdparty/rapidjson/encodings.h:354-368 | Appends the UTF-16 units of a scalar value; a surrogate pair exactly above 0xFFFF. |
| Transcoding.Utf16Spells | livox_ros2/livox_driver/3rdparty/rapidjson/encodings.h:354-368 | The units spell the scalar value: itself, or ten bits in each surrogate, the high ones first (RFC 2781, section 2.2). |
| Transcoding.DecodeUtf16 | livox_ros2/livox_driver/3rdparty/rapidjson/encodings.h:387-402 | True exactly when the units taken are the UTF-16 form of some scalar value, which is then delivered (RFC 2781, section 2.2); a lone or reversed surrogate is refused. |
| Transcoding.Utf16PrefixFree | livox_ros2/livox_driver/3rdparty/rapidjson/encodings.h:354-402 | No UTF-16 form is the start of another, so a sequence of them can be read in one way only. |
| Transcoding.TranscodeToUtf16 | livox_ros2/livox_driver/3rdparty/rapidjson/encodings.h:749-759 | One code point from UTF-8 to UTF-16: the units put are those of the code point whose bytes were taken; an ill-formed unit puts nothing. |
| Transcoding.TranscodeToUtf8 | livox_ros2/livox_driver/3rdparty/rapidjson/encodings.h:749-759 | The other direction, with the same promise. |
| Transcoding.ToUtf16 | livox_ros2/livox_driver/3rdparty/rapidjson/encodings.h:749-759 | Transcoding unit by unit succeeds exactly on the well-formed strings and gives the UTF-16 form of the same code points. |
| Transcoding.ThereAndBack | livox_ros2/livox_driver/3rdparty/rapidjson/encodings.h:749-759 | UTF-8 to UTF-16 and back is the identity on every string that the first direction accepts, and that is every encoding of scalar values and nothing else. |
| PointerLaws.ParseInvertsPrint | livox_ros2/livox_driver/3rdparty/rapidjson/pointer.h:996-1252 | Both notations: printing succeeds always (string) or exactly when every name is well-formed UTF-8 (fragment), and what is printed parses back to the same names, through tilde escapes, %XY triplets and multi-byte sequences (RFC 6901, sections 3, 4 and 6). |
| PointerLaws.ParsedPointerRoundTrip | livox_ros2/livox_driver/3rdparty/rapidjson/pointer.h:1013-1179 | A pointer built by the parser is printed and parsed back whole, indices included, from either notation into either notation. |
| PointerLaws.StringNotation | livox_ros2/livox_driver/3rdparty/rapidjson/pointer.h:1013-1179 | A source that does not start with # is accepted exactly when it is empty, or starts with / and has every ~ followed by 0 or 1; and then printing gives the source back. |
| PointerLaws.EscapeUriSucceeds | livox_ros2/livox_driver/3rdparty/rapidjson/pointer.h:1150-1179 | A name can be printed in a fragment exactly when it is well-formed UTF-8. |
| PointerLaws.OneTokenPerSolidus | livox_ros2/livox_driver/3rdparty/rapidjson/pointer.h:1021-1026 | In either notation an accepted text yields as many tokens as it has / characters. |
| PointerText.UnreservedName | livox_ros2/livox_driver/3rdparty/rapidjson/pointer.h:993-999 | A name of the unreserved characters of RFC 3986, one by one, is one token in a fragment as it stands, and is printed so. |
| PointerText.OneReferenceToken | livox_ros2/livox_driver/3rdparty/rapidjson/pointer.h:1081-1098 | A reference token in string notation names its text with "~1" and then "~0" replaced (RFC 6901, section 4). |
| PointerText.OneFragmentReferenceToken | livox_ros2/livox_driver/3rdparty/rapidjson/pointer.h:1053-1098 | A reference token in an accepted fragment names its text with all triplets decoded, one for / too, and then the two escapes replaced. |
| PointerText.StringsConcatenate | livox_ros2/livox_driver/3rdparty/rapidjson/pointer.h:1045-1132 | Behind an accepted pointer, the text of another one adds its tokens. |
| PointerText.FragmentsConcatenate | livox_ros2/livox_driver/3rdparty/rapidjson/pointer.h:1045-1132 | The same for fragments. |
| PointerText.FirstError | livox_ros2/livox_driver/3rdparty/rapidjson/pointer.h:1053-1098 | Behind any accepted text, which error the next characters are, and its offset: a ~ without its digit, triplets that spell no scalar value, and any character but / and the unreserved ones. |
| PointerText.MustBeginWithSolidus | livox_ros2/livox_driver/3rdparty/rapidjson/pointer.h:1032-1043 | The error and offset of a source that does not start with /, and the two texts of the empty pointer. |
| PointerText.FragmentIsEncodedText | livox_ros2/livox_driver/3rdparty/rapidjson/pointer.h:1150-1179 | A fragment is printed as # and the string notation, percent-encoded byte by byte in upper-case digits; only / and the unreserved characters stand for themselves (RFC 6901, section 6). |
| PointerText.TripletSpells | livox_ros2/livox_driver/3rdparty/rapidjson/pointer.h:1199-1222 | A triplet is a percent sign and two hexadecimal digits of either case, the high one first. |
| PointerText.IndexOfNumeral | livox_ros2/livox_driver/3rdparty/rapidjson/pointer.h:1103-1128 | Only the decimal digits of a number have an index, which is the number in 32 bits, and the number itself below 2^32 - 1. |
| PointerFragments.FragmentNormalForm | livox_ros2/livox_driver/3rdparty/rapidjson/pointer.h:1032-1179 | Every accepted fragment names well-formed UTF-8 only, so it prints again, and the print parses to the same pointer. |
| FragmentText.FragmentNotation | livox_ros2/livox_driver/3rdparty/rapidjson/pointer.h:1032-1104 | The parser accepts a fragment exactly when the text behind # is empty or starts with /, has only /, unreserved characters and whole triplets, decodes to well-formed UTF-8, and follows every ~, in a triplet or not, by a literal 0 or 1. |
| PointerFragments.AcceptedFragmentMeaning | livox_ros2/livox_driver/3rdparty/rapidjson/pointer.h:1053-1088 | An accepted fragment means its decoded text exactly when no triplet stands for /; otherwise the encoded / stays inside the name. |
| FragmentText.FragmentMeansDecodedText | livox_ros2/livox_driver/3rdparty/rapidjson/pointer.h:1032-1104 | For every fragment: it is accepted with the tokens of its decoded text, as section 6 of RFC 6901 reads it, exactly when its text satisfies the condition of `FragmentNotation` and has no triplet for /; and with common rejections counted as agreement, exactly then or when neither the condition holds nor the decoded text is in string notation. |
| PointerFragments.EncodedSolidusExample | livox_ros2/livox_driver/3rdparty/rapidjson/pointer.h:1053-1088 | "#/a%2Fb" is such a fragment: it is parsed to one token. |
| FragmentText.LiteralColonExample | livox_ros2/livox_driver/3rdparty/rapidjson/pointer.h:1073-1076 | "#/a:b" is refused, although "/a:b" is in string notation. |
| FragmentText.EncodedEscapeExample | livox_ros2/livox_driver/3rdparty/rapidjson/pointer.h:1081-1098 | "#/%7E%31" is refused, although it decodes to "/~1". |
| PointerFragments.AccumulateIsModular | livox_ros2/livox_driver/3rdparty/rapidjson/pointer.h:1113-1126 | The digit loop computes the decimal value modulo 2^32, and gives up exactly when some digit makes the 32-bit number smaller. |
| PointerFragments.IndexMeetsPromise | livox_ros2/livox_driver/3rdparty/rapidjson/pointer.h:1107-1126 | The index is the decimal value of every numeral below 2^32 - 1. The documented invalid index for larger ones (lines 103-105) is delivered exactly when the overflow test fires at some digit or the value is one less than a multiple of 2^32. |
| PointerFragments.IndexWrapExample | livox_ros2/livox_driver/3rdparty/rapidjson/pointer.h:1113-1126 | "5000000000" passes the overflow test and gets the index 705032704. |
| PointerParser.Pointer.Parse | livox_ros2/livox_driver/3rdparty/rapidjson/pointer.h:1013-1142 | The in-place parser yields exactly the tokens, or the error code and offset, of the grammar, whatever lies behind the source; only an empty source in front of a # that no / follows is refused at offset 1 instead of being the empty pointer. All writes stay inside a name buffer as long as the source, in success and in error; all token slots counted beforehand are filled, one for each /; on error the buffers are given up. |
| PointerParser.ParseTokens | livox_ros2/livox_driver/3rdparty/rapidjson/pointer.h:1045-1132 | The token loop fills the counted slots in order, each with a slice of the buffer that later tokens do not overwrite. |
| PointerParser.ParsePercent | livox_ros2/livox_driver/3rdparty/rapidjson/pointer.h:1053-1088 | One percent sequence, whole or cut short: the item of the grammar or its error and offset; every decoded byte is written inside the buffer, and what was stored before stays. |
| PointerParser.ToIndex | livox_ros2/livox_driver/3rdparty/rapidjson/pointer.h:1113-1126 | The digit loop over the stored name, with its early exit, is the 32-bit conversion. |
| PointerParser.Pointer.Stringify | livox_ros2/livox_driver/3rdparty/rapidjson/pointer.h:1150-1179 | The printing loop writes the text of the tokens, and fails exactly where that text does not exist; what it has put by then starts with the text up to the first ill-formed unit. |
| Dom.ConstructorsAgree | livox_ros2/livox_driver/3rdparty/rapidjson/document.h:858-899 | All four integer constructors give the same value for the same integer, with a flag for exactly the types that can hold it. |
| Dom.FlagsOfNumber | livox_ros2/livox_driver/3rdparty/rapidjson/document.h:858-899 | The ranges in which a number has each flag, and its 64 bits. |
| Dom.FindMemberLoop | livox_ros2/livox_driver/3rdparty/rapidjson/document.h:1519-1527 | The loop stops at the first member with the name, or at the end. |
| Dom.Equals | livox_ros2/livox_driver/3rdparty/rapidjson/document.h:1110-1147 | The operator with its loops and early exits computes the equality that the lemmas are about, for any conversion of integers to doubles. |
| Dom.EqualReflexive | livox_ros2/livox_driver/3rdparty/rapidjson/document.h:1110-1147 | A tree without duplicate names equals itself exactly when every double in it is a number, infinite or not. |
| EqualMeaning.EqualMeans | livox_ros2/livox_driver/3rdparty/rapidjson/document.h:1110-1147 | A tree without duplicate names equals another exactly when every path leads to a place in both or in neither, and the two are alike: the same kind, and the same characters, truth value, 64 bits, double or number of children. |
| EqualMeaning.IntegerOfNumber | livox_ros2/livox_driver/3rdparty/rapidjson/document.h:858-899 | A number made from an integer stands for that integer where it meets a double. |
| Dom.SameFloatIsEquality | livox_ros2/livox_driver/3rdparty/rapidjson/document.h:1136-1141 | The two comparisons of doubles amount to equality, except that NaN equals nothing. |
| Dom.NamesCovered | livox_ros2/livox_driver/3rdparty/rapidjson/document.h:1115-1127 | The counting step behind symmetry: equally many members and every distinct left name found on the right leave no right name over. |
| Dom.EqualSymmetric | livox_ros2/livox_driver/3rdparty/rapidjson/document.h:1110-1147 | Symmetric on trees without duplicate names, doubles included, although only left members are searched in the right object. |
| Dom.EqualTransitive | livox_ros2/livox_driver/3rdparty/rapidjson/document.h:1110-1147 | Transitive on trees without doubles, duplicate names or not. |
| Dom.EqualIgnoresOrder | livox_ros2/livox_driver/3rdparty/rapidjson/document.h:1110-1127 | A permutation of the members of a duplicate-free object without NaN compares equal to it. |
| Dom.DuplicatesOnTheLeft | livox_ros2/livox_driver/3rdparty/rapidjson/document.h:1104-1127 | The documentation says an object with a duplicate name equals none. On the left-hand side that holds exactly when two members share a name but not a value. |
| Dom.EqualsSomething | livox_ros2/livox_driver/3rdparty/rapidjson/document.h:1104-1127 | For any members whatever, doubles and nested duplicates included: an object on the left equals some object exactly when the values under each name have a value that they all equal. |
| Dom.DuplicatesOnTheRight | livox_ros2/livox_driver/3rdparty/rapidjson/document.h:1104-1127 | A duplicate-free object on the left never equals an object with a duplicate name. |
| Dom.DuplicateExample | livox_ros2/livox_driver/3rdparty/rapidjson/document.h:1104-1127 | {"a":1,"a":1} equals {"a":1,"b":2}, and not the other way round. |
| Dom.IntegerEquality | livox_ros2/livox_driver/3rdparty/rapidjson/document.h:1136-1143 | Two integers compare equal exactly when they agree modulo 2^64: -1 equals 2^64 - 1. |
| Dom.MixedComparison | livox_ros2/livox_driver/3rdparty/rapidjson/document.h:1136-1143 | Two different integers that round to one double both equal it and not each other. |
| PointerResolve.CreateReports | livox_ros2/livox_driver/3rdparty/rapidjson/pointer.h:539-585 | Create reports an existing value exactly when Get resolves before; then the tree is unchanged and the value is the one Get finds. |
| PointerEffects.GetMeans | livox_ros2/livox_driver/3rdparty/rapidjson/pointer.h:622-649 | Get, one token at a time: a token leads to the first member of its name or the element of its index. |
| PointerEffects.SetAssigns | livox_ros2/livox_driver/3rdparty/rapidjson/pointer.h:539-585 | The whole tree after any Set: objects keep their members in place and gain at most the missing one, at the end; arrays keep their elements and are made just long enough, with Nulls in front of the new one; anything else on the way gives way to an empty container. |
| PointerEffects.AssignedOnce | livox_ros2/livox_driver/3rdparty/rapidjson/pointer.h:539-585 | That describes one tree only. |
| PointerEffects.CreateAssigns | livox_ros2/livox_driver/3rdparty/rapidjson/pointer.h:539-585 | Create does the same with a Null, when nothing was there. |
| PointerEffects.NewlyResolved | livox_ros2/livox_driver/3rdparty/rapidjson/pointer.h:539-585 | A pointer that resolves only after a Set goes its way or names one of the Nulls in front of a new element. |
| PointerEffects.DefaultAssigns | livox_ros2/livox_driver/3rdparty/rapidjson/pointer.h:678-684 | GetWithDefault leaves the tree alone or assigns the default. |
| PointerResolve.SetThenGet | livox_ros2/livox_driver/3rdparty/rapidjson/pointer.h:781-790 | After Set, Get finds the value, for every tree and pointer, unless "-" was applied to an array on the way: then it does not resolve. |
| PointerResolve.SetUndone | livox_ros2/livox_driver/3rdparty/rapidjson/pointer.h:781-790 | Setting the old value again undoes a Set of a pointer that resolved. |
| PointerResolve.SetFrame | livox_ros2/livox_driver/3rdparty/rapidjson/pointer.h:781-790 | Setting a pointer that resolved leaves every pointer that branches off its path as it was. |
| PointerResolve.SetFrameAnywhere | livox_ros2/livox_driver/3rdparty/rapidjson/pointer.h:539-585 | Any Set: a pointer that resolved and leaves its way keeps its value exactly when no array was turned into an object where it leaves. |
| PointerResolve.DefaultOnlyIfMissing | livox_ros2/livox_driver/3rdparty/rapidjson/pointer.h:678-684 | An existing value is returned and the tree untouched; a missing one is created with the default. |
| PointerResolve.EraseMeetsPromise | livox_ros2/livox_driver/3rdparty/rapidjson/pointer.h:914-951 | Erase returns true exactly for a non-empty pointer that resolves and removes exactly that child, if and only if the last name is not cut to another one by its C string (line 942). |
| PointerEffects.EraseRemoves | livox_ros2/livox_driver/3rdparty/rapidjson/pointer.h:914-951 | The whole tree after Erase: the parent has exactly one child fewer, all others keep their order and everything else stays; nothing changes exactly when the last name, cut at its first zero, is not there. |
| PointerResolve.CStringMeans | livox_ros2/livox_driver/3rdparty/rapidjson/pointer.h:942-942 | The C string of a name is everything in front of its first zero. |
| PointerResolve.EraseMissesExample | livox_ros2/livox_driver/3rdparty/rapidjson/pointer.h:942-942 | With the key "a\0b", Get resolves it and Erase finds nothing. |
| PointerResolve.EraseWrongExample | livox_ros2/livox_driver/3rdparty/rapidjson/pointer.h:942-942 | With a member "a" besides, Erase of "a\0b" removes "a". |
| PointerResolve.RemoveChildResolves | livox_ros2/livox_driver/3rdparty/rapidjson/document.h:1798-1839 | In a duplicate-free object the removed name is gone and every other name keeps its value; in an array, later elements move down by one and the array is one shorter. |
| PointerResolve.ErasedUnresolved | livox_ros2/livox_driver/3rdparty/rapidjson/pointer.h:914-951 | After an erase the pointer is unresolved in a duplicate-free object; in an array, exactly when the last element went. |
| PointerResolve.EraseFrame | livox_ros2/livox_driver/3rdparty/rapidjson/pointer.h:914-951 | Erase does not affect a pointer that branches off above the erased child. |
| PointerTree.Tree.Get | livox_ros2/livox_driver/3rdparty/rapidjson/pointer.h:622-649 | The walk finds what the pointer resolves to, or the index of the first token that does not resolve. |
| PointerTree.Tree.Create | livox_ros2/livox_driver/3rdparty/rapidjson/pointer.h:539-585 | The in-place walk, writing through its current position, gives the tree, the position and the flag that the laws are about. |
| PointerTree.StepInPlace | livox_ros2/livox_driver/3rdparty/rapidjson/pointer.h:546-578 | One token of the walk, with its type changes and its loop of PushBack. |
| PointerTree.Tree.Set | livox_ros2/livox_driver/3rdparty/rapidjson/pointer.h:781-790 | Set in place. |
| PointerTree.Tree.GetWithDefault | livox_ros2/livox_driver/3rdparty/rapidjson/pointer.h:678-684 | GetWithDefault in place, and the value it returns. |
| PointerTree.Tree.Erase | livox_ros2/livox_driver/3rdparty/rapidjson/pointer.h:914-951 | The in-place walk to the parent and the removal there, on every exit path. |
| Events.NumberEventFits | livox_ros2/livox_driver/3rdparty/rapidjson/document.h:2317-2330 | The event of a number carries the integer itself, in a type whose constructor builds the same value again. |
| Events.NarrowestEvent | livox_ros2/livox_driver/3rdparty/rapidjson/document.h:2317-2330 | An integer is sent in the first type that holds it: 32 bits, 32 bits unsigned, 64 bits, 64 bits unsigned. |
| Events.AcceptMeans | livox_ros2/livox_driver/3rdparty/rapidjson/document.h:2286-2330 | The event of each kind of value and of a name, and the brackets around elements and members with their number. |
| Events.AcceptAppend | livox_ros2/livox_driver/3rdparty/rapidjson/document.h:2295-2313 | Elements and members send their events one after the other, in their order. |
| Rebuild.RunAccept | livox_ros2/livox_driver/3rdparty/rapidjson/document.h:2286-2331 | The handler run on the events of any tree takes any stack S to S plus exactly that tree: member order, duplicates, copy flags and number flags included, and no handler assertion fails. |
| Rebuild.Document.Populate | livox_ros2/livox_driver/3rdparty/rapidjson/document.h:2716-2725 | Populating from a tree finds exactly one root, makes it the document and leaves the stack empty. |
| Rebuild.Document.EndObject | livox_ros2/livox_driver/3rdparty/rapidjson/document.h:2980-2986 | Pops two values for each member and turns the value below them into the object. |
| Rebuild.Document.Handle | livox_ros2/livox_driver/3rdparty/rapidjson/document.h:2926-3000 | Each handler changes the stack as the stack machine says. |
| PrettyPrint.RunAccept | livox_ros2/livox_driver/3rdparty/rapidjson/prettywriter.h:163-311 | From any state in which a value may come next, the events of a tree whose doubles all have a text break no assertion, print its indented text at that depth, count one value, and leave everything else as it was. |
| PrettyPrint.RunRefused | livox_ros2/livox_driver/3rdparty/rapidjson/prettywriter.h:163-311 | A double without a text stops the run where it stands: no assertion fails, what is put is a start of the indented text, every open level stays open, and so does that of an array or object around the double. |
| PrettyPrint.WritableIsWritten | livox_ros2/livox_driver/3rdparty/rapidjson/writer.h:403-405 | A handler returns false on some event of a tree exactly when the tree has a NaN or an infinity and the write flag does not allow them. |
| PrettyPrint.WritableMeans | livox_ros2/livox_driver/3rdparty/rapidjson/writer.h:403-405 | Every double has a text exactly when the write flag is set or no double in the tree is NaN or infinite. |
| PrettyPrint.AssertionFails | livox_ros2/livox_driver/3rdparty/rapidjson/prettywriter.h:180-303 | Which assertion of a handler fails, and when: an end without its start, an object that ends behind a name, a second root, a name that is not a string. |
| PrettyPrint.PrettyIsCompact | livox_ros2/livox_driver/3rdparty/rapidjson/prettywriter.h:263-311 | The indented text, with the whitespace characters between its texts erased, is the compact text, for both array styles, every indent character that `SetIndent` allows, every width and every depth (RFC 8259, sections 2, 4 and 5). |
| PrettyLayout.CompactReads | livox_ros2/livox_driver/3rdparty/rapidjson/prettywriter.h:163-311 | A reader of the grammar of JSON, over the pieces of the text, reads the compact text back as the events of the tree, whatever follows it (RFC 8259, sections 3 to 5). |
| PrettyLayout.PrettyIsLaid | livox_ros2/livox_driver/3rdparty/rapidjson/prettywriter.h:180-311 | What stands between any two pieces of the indented text: a line break and one indentation for each open bracket, one space, or nothing, by the brackets that are open and the two pieces. |
| PrettyPrint.PrintsTree | livox_ros2/livox_driver/3rdparty/rapidjson/prettywriter.h:114-311 | From a fresh writer: it ends with an empty level stack and the compact text once the layout is erased exactly when every double has a text; then the whole indented text is there, flushed, and otherwise a start of it. |
| PrettyWriter.IndentingWriter.PrettyPrefix | livox_ros2/livox_driver/3rdparty/rapidjson/prettywriter.h:263-303 | The prefix of a value or a name, by the branches of the code. |
| PrettyWriter.IndentingWriter.WriteIndent | livox_ros2/livox_driver/3rdparty/rapidjson/prettywriter.h:305-311 | One indentation for each open level. |
| PrettyWriter.IndentingWriter.WriteText | livox_ros2/livox_driver/3rdparty/rapidjson/writer.h:403-433 | Puts the text of a leaf, and refuses exactly a NaN or an infinity that the write flag does not allow. |
| PrettyWriter.IndentingWriter.EndObject | livox_ros2/livox_driver/3rdparty/rapidjson/prettywriter.h:180-205 | Closes the level with a line break exactly when it was not empty, and flushes at the end of the text. |
| PrettyWriter.IndentingWriter.EndArray | livox_ros2/livox_driver/3rdparty/rapidjson/prettywriter.h:214-234 | The same for arrays, without the line break in single-line style. |
| PrettyWriter.IndentingWriter.Print | livox_ros2/livox_driver/3rdparty/rapidjson/prettywriter.h:114-311 | Driving a fresh writer object with the events of any tree breaks no assertion and succeeds exactly when every double has a text; exactly then the level stack is empty and the output without its layout is the compact text of the tree. |
| PoolAllocator.MemoryPool.Malloc | livox_ros2/livox_driver/3rdparty/rapidjson/allocators.h:208-220 | For every 64-bit size: the pointer and the size in use afterwards, wrap-around included. Null exactly for size 0 or when a needed chunk is not to be had. The pool stays as it should be exactly when no sum of the call wraps, which the caller can check beforehand; and then the block is new, apart from every live one, inside a chunk that is not over-full, and exactly its aligned size more is in use. |
| PoolAllocator.MemoryPool.RoomDecides | livox_ros2/livox_driver/3rdparty/rapidjson/allocators.h:208-214 | While the sizes fit 64 bits, a new chunk is asked for exactly when the newest one has no room for the block, and it is as large as the block or the pool's chunks, whichever is larger. |
| PoolAllocator.MemoryPool.AddChunk | livox_ros2/livox_driver/3rdparty/rapidjson/allocators.h:268-281 | The new chunk is empty and in front of the old ones; its memory is what the 64-bit sum of header and capacity asks for, so that the pool stays as it should be exactly when that sum does not wrap. |
| PoolAllocator.MemoryPool.Realloc | livox_ros2/livox_driver/3rdparty/rapidjson/allocators.h:223-253 | In place or by copy, for every 64-bit size. The pool stays as it should be exactly when no sum of the call wraps; then the pointer stays exactly when the block need not grow or is the last one of a chunk with room for it, every block that was live keeps its bytes and every chunk its header, the result holds the first originalSize bytes, and the live blocks stay pairwise apart. Null only for size 0 or for want of a chunk, and then the live blocks and the size in use stay. |
| PoolAllocator.MemoryPool.GrowInPlace | livox_ros2/livox_driver/3rdparty/rapidjson/allocators.h:236-245 | The in-place case: no byte moves, the block is longer, and the pool stays as it should be exactly when the 64-bit sum does not wrap. |
| PoolAllocator.MemoryPool.ModerateNeverWraps | livox_ros2/livox_driver/3rdparty/rapidjson/allocators.h:208-253 | No sum wraps for a request of at most an eighth of the address space while no chunk is larger either. |
| PoolAllocator.MemoryPool.Clear | livox_ros2/livox_driver/3rdparty/rapidjson/allocators.h:178-187 | Gives every chunk back but the caller's own, which is emptied. |
| PoolAllocator.MemoryPool.Size | livox_ros2/livox_driver/3rdparty/rapidjson/allocators.h:201-206 | The loop adds up, in 64 bits, what is in use in all chunks. |
| PoolAllocator.MemoryPool.Capacity | livox_ros2/livox_driver/3rdparty/rapidjson/allocators.h:191-196 | The loop adds up all capacities in 64 bits, and what is in use is never more than all capacities. |
| PoolAllocator.MemoryPool.constructor | livox_ros2/livox_driver/3rdparty/rapidjson/allocators.h:133-140 | A fresh pool has no chunk and no live block. |
| PoolAllocator.MemoryPool.WithBuffer | livox_ros2/livox_driver/3rdparty/rapidjson/allocators.h:153-168 | The caller's buffer, longer than a header, is the first chunk; its capacity is what is left behind the header. |
| PoolRuns.Run | livox_ros2/livox_driver/3rdparty/rapidjson/allocators.h:178-253 | After any sequence of Malloc, Realloc (of a block or of null), writes through the pointers, and Clear, with a base allocator that may fail at any of them, every pointer the client holds is usable and reads back what was written through it, as if each block were a vector of its own; unless a sum of some call wraps, at which the run ends with a pool that is not as it should be. None does when no request and no chunk is over an eighth of the address space. |
| PoolRuns.Perform | livox_ros2/livox_driver/3rdparty/rapidjson/allocators.h:178-253 | Each single operation keeps that agreement exactly when no sum of it wraps, and fails only when the base allocator has nothing or is asked for a chunk of no bytes. |
| PoolRuns.StillRead | livox_ros2/livox_driver/3rdparty/rapidjson/allocators.h:208-253 | What a client reads after an operation: what it just wrote, and everything written before that is still part of its block. |
| PoolRuns.MallocWrapExample | livox_ros2/livox_driver/3rdparty/rapidjson/allocators.h:211-218 | Malloc(2^64 - 8) after Malloc(16) gives a pointer and makes the size in use 8, so that the next block would start inside the first. |
| PoolRuns.ReallocWrapExample | livox_ros2/livox_driver/3rdparty/rapidjson/allocators.h:228-232 | Realloc of an eight-byte block to 2^64 - 1 bytes gives it back as it is. |
| BufferedStreams.FileReadStream.Take | livox_ros2/livox_driver/3rdparty/rapidjson/filereadstream.h:62-72 | Delivers the byte at the read position, or zero at the end, and moves on, but never past the end, across all refills of the buffer. |
| BufferedStreams.FileReadStream.Read | livox_ros2/livox_driver/3rdparty/rapidjson/filereadstream.h:90-105 | The refill keeps the buffer a window of the file, and puts a zero behind its end. |
| BufferedStreams.FileReadStream.Peek4 | livox_ros2/livox_driver/3rdparty/rapidjson/filereadstream.h:84-87 | Non-null exactly when the buffer still holds four bytes of the file from here on, and these are the next four. |
| BufferedStreams.TakeFromFile | livox_ros2/livox_driver/3rdparty/rapidjson/filereadstream.h:50-105 | For any contents and buffer size of at least 4, n Takes deliver the first n bytes and zeros past the end, and Tell is min(n, length). |
| BufferedStreams.TakeFromWrapper | livox_ros2/livox_driver/3rdparty/rapidjson/istreamwrapper.h:54-140 | The stream wrapper delivers the same. |
| BufferedStreams.IStreamWrapper.Read | livox_ros2/livox_driver/3rdparty/rapidjson/istreamwrapper.h:125-140 | The wrapper's own refill, which assumes a full read first and corrects itself. |
| BufferedStreams.FileWriteStream.Put | livox_ros2/livox_driver/3rdparty/rapidjson/filewritestream.h:48-52 | What the file has plus what the buffer holds back grows by exactly the byte. |
| BufferedStreams.FileWriteStream.PutN | livox_ros2/livox_driver/3rdparty/rapidjson/filewritestream.h:54-68 | The same for n copies; the loop ends even when the buffer starts full. |
| BufferedStreams.FileWriteStream.Flush | livox_ros2/livox_driver/3rdparty/rapidjson/filewritestream.h:70-80 | Everything put so far is in the file and the buffer is empty. |
| OculusFraming.StepConserves | oculus_ros2/liboculus/lib/DataRx.cpp:82-242 | A completed read keeps every byte, in a post or in the buffer, exactly unless it brings a header whose 32-bit packet size wraps; and keeps them in a receiver that goes on exactly unless it brings that or a ping packet that ends the process. |
| OculusFraming.RunConserves | oculus_ros2/liboculus/lib/DataRx.cpp:82-242 | Whole runs over any stream: the posts, the buffer and the unread rest make up the input again exactly when no header met wraps; and they do in a receiver that goes on exactly when, moreover, no ping packet met ends the process. |
| OculusFraming.RunGoesOn | oculus_ros2/liboculus/lib/DataRx.cpp:189-242 | Receiving goes on after a run exactly unless the run meets an overlong header or a ping packet that is shorter than its structure, sends gains that lie outside it, or has an image of the right size inside the structure. |
| PingFields.PacketReceived | oculus_ros2/liboculus/lib/DataRx.cpp:189-242 | For every packet and whatever follows it, by the bytes of its fields: it is handed out exactly when it is a ping of version 0, 1 or 2 that is long enough, has its gains inside, an image size of samples times ranges times beams plus gains, and an image offset above 122; what is posted, and when the receiver stops. |
| PingFields.GainIsRead | oculus_ros2/liboculus/include/liboculus/GainData.h:59-69 | Where the gain of each row is read, and that it is the 32-bit number there. |
| PingFields.PacketsAreFramed | oculus_ros2/liboculus/include/liboculus/MessageHeader.h:57-80 | A packet is the two bytes of the id and a 32-bit length of the bytes behind the sixteen of the header. |
| PingFields.JunkByte | oculus_ros2/liboculus/lib/DataRx.cpp:114-133 | A byte other than the first one of the id is posted by itself. |
| PingFields.JunkPair | oculus_ros2/liboculus/lib/DataRx.cpp:135-153 | The first byte of the id is posted with the byte behind it, unless that is the second one. |
| OculusFraming.ImageSizeIsExact | oculus_ros2/liboculus/include/liboculus/SimplePingResult.h:151-156 | The expected image size is that of the samples and gains exactly when the pixel count fits a signed 32-bit integer or the sample size is unknown. |
| OculusFraming.OverlongExample | oculus_ros2/liboculus/include/liboculus/MessageHeader.h:73-76 | A header that announces 2^32 - 16 payload bytes: sixteen bytes read, none kept, and the receiver stops. |
| OculusFraming.ShortPingExample | oculus_ros2/liboculus/include/liboculus/SimplePingResult.h:98-102 | A 16-byte ping result of version 2 is a complete packet and ends the receiver, unposted. |
| OculusFraming.EveryGainInside | oculus_ros2/liboculus/include/liboculus/GainData.h:59-69 | The last gain lies inside the packet exactly when all do, for every 16-bit stride. |
| OculusFraming.GainOutsideExample | oculus_ros2/liboculus/include/liboculus/SimplePingResult.h:113-128 | A complete 122-byte ping with a matching image size and an image offset of 2^31 - 1: copying its gain reads far past it, and the receiver ends with the packet unposted. |
| OculusFraming.RunIsFaithful | oculus_ros2/liboculus/lib/DataRx.cpp:189-242 | On any stream, junk included, the callbacks are exactly the posts that are complete ping packets with a matching image size, in order. |
| OculusFraming.FramingInvertsConcatenation | oculus_ros2/liboculus/lib/DataRx.cpp:102-242 | A stream of packets and junk bytes other than the first header byte is posted item by item, its valid ping packets are handed out in order, and the machine is back at the start with an empty buffer, exactly when no packet among them ends the process. |
| OculusFraming.FatalItemStops | oculus_ros2/liboculus/include/liboculus/SimplePingResult.h:98-166 | The first packet that ends the process stays in the buffer unposted, behind the posts of all items before it, and nothing after it is read. |
| OculusFraming.StrayHeaderByte | oculus_ros2/liboculus/lib/DataRx.cpp:114-153 | The premise on junk is needed: a stray first header byte takes the first byte of any packet behind it into its own post. |
| DataRx.Receiver.ReadUpTo | oculus_ros2/liboculus/lib/DataRx.cpp:82-91 | Asks for exactly the bytes missing to the total; a smaller total cuts the buffer. |
| DataRx.Receiver.RestartReceiveCycle | oculus_ros2/liboculus/lib/DataRx.cpp:93-110 | Posts a non-empty buffer, and leaves the buffer alone and takes a new one whenever anyone else points to it. |
| DataRx.Receiver.RxHeader | oculus_ros2/liboculus/lib/DataRx.cpp:155-187 | The header handler: next state and size of the read. |
| DataRx.Receiver.RxPacket | oculus_ros2/liboculus/lib/DataRx.cpp:189-242 | The packet handler: a callback exactly for a valid ping packet of version 0, 1 or 2, then a new cycle; the end where an assertion fails or a gain lies outside the packet; a buffer the client keeps is replaced. |
| DataRx.Receiver.CheckPing | oculus_ros2/liboculus/include/liboculus/SimplePingResult.h:98-166 | The constructor's assertions and copies and the validity test, field by field, give the verdict of the framing. |
| DataRx.Receiver.CopyGains | oculus_ros2/liboculus/include/liboculus/GainData.h:55-70 | The copying loop reads the gain of every row, and leaves the buffer exactly when the last one is not inside. |
| DataRx.Receiver.OverlayPing | oculus_ros2/liboculus/include/liboculus/SimplePingResult.h:98-134 | The constructor ends well exactly when the structure and all gains sent are inside the packet, and has then copied one gain for each row. |
| DataRx.Receiver.Complete | oculus_ros2/liboculus/lib/DataRx.cpp:112-242 | Each handler, called with its completed read, does one step of the machine; the length tests against the transferred bytes never fail without a transport error; a kept buffer is never written again. |
| DataRx.Receiver.Receive | oculus_ros2/liboculus/lib/DataRx.cpp:82-242 | All reads of an input: the object is where the machine's run ends, and every buffer a callback kept has the bytes it had. |
| Ping360.Interface.Search | ping360_ros2/ping360_sonar/src/sonar_interface.cpp:51-77 | The nested loops choose the requested pair unless a pair in the box costs less, and then the first of the cheapest. |
| Ping360.ChosenIsUnique | ping360_ros2/ping360_sonar/src/sonar_interface.cpp:51-77 | At most one pair is such a choice. |
| Ping360.ChosenMeans | ping360_ros2/ping360_sonar/src/sonar_interface.cpp:51-77 | The outcome by distances: the requested pair if its step divides its aperture or no dividing pair in reach is nearer than 1000; otherwise the nearest of them, the smallest step and then the smallest aperture first. |
| Ping360.ChosenDivides | ping360_ros2/ping360_sonar/src/sonar_interface.cpp:51-77 | The chosen step divides the chosen half-aperture exactly when the requested pair does, or the half-aperture is at most 200 and the step less than 1000 beyond it. |
| Ping360.Interface.ConfigureAngles | ping360_ros2/ping360_sonar/src/sonar_interface.cpp:40-91 | Limits, step and reported degrees; the current angle is kept when on the new grid and reset to the heading otherwise; on exit it is on the grid and in range exactly when it was, or when the step divides the half-aperture. |
| Ping360.ReportsAreStable | ping360_ros2/ping360_sonar/src/sonar_interface.cpp:43-45 | A reported aperture, asked for again, gives the same half-aperture; a reported step gives the same step exactly when the step does not end in a five. |
| Ping360.Interface.UpdateAngle | ping360_ros2/ping360_sonar/src/sonar_interface.cpp:143-161 | The update in place, with its two modes. |
| Ping360.ConfigureAndScan | ping360_ros2/ping360_sonar/src/sonar_interface.cpp:40-161 | A freshly configured head over a whole run: in a sector, multiples of the step strictly inside it, with turns exactly at the two outermost; in a full scan, the k-th ping is -200 + ((200 + k*step) mod 400). |
| Ping360.ReconfiguredAtTurn | ping360_ros2/ping360_sonar/src/sonar_interface.cpp:80-87 | Configuring again at the upper turning point keeps the angle but makes the step positive: the next ping is at the edge, and all pings after it are inside. |
| HeadScan.Sweep | ping360_ros2/ping360_sonar/src/sonar_interface.cpp:143-161 | For every aperture, step and start from which the next step stays inside, divisible or not: every ping is strictly inside the sector and on the grid of the start, and a turn is reported exactly at the two outermost grid points. |
| HeadScan.SweepCovers | ping360_ros2/ping360_sonar/src/sonar_interface.cpp:143-161 | Every grid point inside the sector is pinged in any 2m consecutive updates, m + 1 being their number. |
| HeadScan.DivisorSweep | ping360_ros2/ping360_sonar/src/sonar_interface.cpp:143-161 | With a step that divides the half-aperture H and a start at the heading: multiples of the step, turns exactly at plus and minus (H - step). |
| HeadScan.DivisorSweepCovers | ping360_ros2/ping360_sonar/src/sonar_interface.cpp:143-161 | Then every multiple inside comes up in any 4H/s - 4 consecutive updates. |
| HeadScan.StaysInside | ping360_ros2/ping360_sonar/src/sonar_interface.cpp:80-87 | Which starts in range keep all pings strictly inside: exactly those with angle + step < H, and at the lower edge also angle + 2*step < H. |
| HeadScan.RecoversExactly | ping360_ros2/ping360_sonar/src/sonar_interface.cpp:154-160 | From every start in range, the edges included, every ping from the third on is strictly inside the sector, exactly when the step is shorter than the half-aperture. |
| HeadScan.FullTurn | ping360_ros2/ping360_sonar/src/sonar_interface.cpp:146-152 | Full scan for every step up to 400: the k-th ping is the k-th grid point counted around the turn, and the end of a turn is reported exactly at the last grid point and again at the first. |
| HeadScan.FirstTurn | ping360_ros2/ping360_sonar/src/sonar_interface.cpp:146-152 | From any start in range, on the grid or not: pings one step apart up to the end of the turn, then the wrap to -200; the end of the turn is reported at both. |
| HeadScan.LaterTurns | ping360_ros2/ping360_sonar/src/sonar_interface.cpp:146-152 | From the wrap on, the k-th ping is the k-th point of the grid that starts at -200, counted around the turn. |
| HeadScan.FullTurnAngles | ping360_ros2/ping360_sonar/src/sonar_interface.cpp:146-152 | When the step divides 400 and the start is on the grid: the k-th ping is -200 + ((start + 200 + k*step) mod 400). |
| Bearings.LowerBound | oculus_ros2/oculus_sonar/src/polar_to_cartesian.cpp:236-237 | The binary search finds the first element not below the bearing. |
| Bearings.InterpolateBearing | oculus_ros2/oculus_sonar/src/polar_to_cartesian.cpp:228-257 | -1 exactly out of range or for an empty table; otherwise the index lies in [0, n - 1] and is the one the lemmas are about. |
| Bearings.LookupUndoesIndex | oculus_ros2/oculus_sonar/src/polar_to_cartesian.cpp:228-257 | Looking up the index of a bearing gives the bearing back, for every bearing in range, exactly when every gap of the sorted table is empty or at least 1e-9. |
| Bearings.IndexUndoesLookup | oculus_ros2/oculus_sonar/src/polar_to_cartesian.cpp:228-257 | The index of a looked-up bearing is the index again, for every fractional index, exactly when all gaps are at least 1e-9. |
| Bearings.IndexIncreases | oculus_ros2/oculus_sonar/src/polar_to_cartesian.cpp:228-257 | The index is strictly increasing in the bearing exactly when every gap is empty or at least 1e-9. |

## Left out

- ROS nodes, parameters, publishers, configuration files, device management, sockets and threads: plumbing over
  libraries that are not part of this model.
- Livox point-cloud queues, the logging sinks and crash handlers, the trigonometric pixel bounds of the Ping360
  image, the transducer settings and the mapping cache of the fan image: easy claims, or floating-point rounding.
- The JSON reader, the schema validator and the number-to-text conversions: what `Base::Write*` puts for a leaf
  is one opaque token, so that reading a written text back is stated over such pieces, not characters. The write
  flag that checks the encoding of strings is off, as by default.
- The second constructor of the indenting writer leaves its format options uninitialised; the model always has
  options.
- Positions instead of raw pointers into the tree: `PointerTree` keeps the child numbers that lead to the current
  value, so aliasing between values, moves, and the growth of the arrays behind members and elements are not
  captured.
- Whole JSON values are immutable data in `Rebuild` and `PointerTree`; only the stack and the root change in place.
- Generators that fail: `Populate` is modelled for a whole tree.
- Numbers default-constructed without integer flags: `Built` asks for numbers made by an integer constructor.
- Equality of doubles beyond what any rounding function gives: the conversion of an integer is a parameter.
- Dom.EqualSymmetric: assumes no duplicate names, because with them the code is not symmetric
  (`Dom.DuplicateExample`).
- PoolAllocator.MemoryPool.Malloc: after a call whose sums have wrapped nothing more is said about the pool, whose
  blocks overlap; in particular the copy of such a Realloc is left out. The chunk list is a sequence of chunk
  objects, so the bytes of a header are kept but not read; a header is three machine words, which are aligned.
  The destructor and ownership of the base allocator are not modelled.
- Dom.DuplicatesOnTheLeft: asks for member values without doubles and duplicate names, on which equality is an
  equivalence; `Dom.EqualsSomething` is for all members.
- PoolAllocator.MemoryPool.Realloc: says nothing about a pointer that the pool did not hand out, or an original
  size larger than the block.
- BufferedStreams.TakeFromFile: a file is its bytes; read errors are not modelled, nor write errors in the output
  stream.
- PointerParser.Pointer.Stringify: the triplets of the ill-formed unit at which printing a fragment fails are not
  specified, because they can stand for bytes behind the end of the name.
- PointerParser.Pointer.Parse: the token array and the name buffer are two arrays rather than one allocation.
- DataRx.Receiver.Complete: no transport error and no short read; the branches for them (lines 117-119, 138-140,
  156-165 and 193-202 of `DataRx.cpp`) stay unmodelled or are shown not to be taken.
- DataRx.Receiver.CheckPing: the overlays on bearings and image, which the constructor makes without reading them.
- OculusFraming.RunGoesOn: assertions are checked, as in a build that keeps them; without them the code reads past
  the buffer where the model stops. A pixel count beyond 2^31 wraps, which the language leaves undefined. Running out
  of memory for a packet is not modelled.
- OculusFraming.FramingInvertsConcatenation: junk that contains the first header byte is excluded, because the
  receiver does not resynchronise on it (`OculusFraming.StrayHeaderByte`); runs over such streams are covered by
  `OculusFraming.RunConserves` and `OculusFraming.RunIsFaithful`.
- Ping360.Interface.ConfigureAngles: apertures from 0 and steps from 1 degree on, which includes the 60 to 360 and
  1 to 20 degrees that the node's parameters allow; a negative aperture, a zero step and 32-bit overflow of the
  angles are not modelled. The conversions to gradians are exact because no half occurs.
- Bearings.InterpolateBearing: over the reals, so no rounding; the table is sorted, as the code takes it to be.
