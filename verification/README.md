# cJSON and CJsonObject, modelled and proved

This project models the JSON engine of the repository: `cJSON.c`, a parser, printer and tree of
doubly linked child chains, and `CJsonObject.cpp`, a wrapper that owns or borrows such a tree and
caches the wrappers it hands out.

The model has two levels. The lower level runs the way the C and C++ code runs: cursors that
advance through the input, counting loops, buffers of a computed size that are filled through an
index, nodes whose `next`, `prev`, `child` and string fields are rewritten in place, and a class
whose maps are changed by its methods. The upper level is a set of pure definitions that do not
look like the code: the grammar of RFC 8259 as derivation trees, the printed text of a value, the
UTF-8 of a code point, the rational number a literal stands for, a sequence of trees for a chain,
the first child that matches a name. Every method is tied to the upper level by its contract, and
the theorems are proved there.

How things are represented:

- A `const char *` into a NUL-terminated text is the text from the pointer up to the NUL, so that
  advancing a cursor drops a prefix. Buffers that are written, and strings that nodes own, are
  arrays.
- The parse functions return a value and the text at the returned cursor (`Ok`), the null pointer
  (`Fail`), or `Malformed` when what the C code does is not defined. That happens in string literals
  only: a pass runs over the NUL, a variable is used that `sscanf` never stored anything in, or more
  is written than was counted. Everything else the two passes do is followed step by step
  (`Strings.Loop`, `Strings.Raw`), the blanks, signs and prefixes `sscanf` takes included.
- `parse_number` accumulates in a floating-point variable. `Numbers.Accumulate` rounds to 53 bits
  after every digit, as a 64-bit double does, so the exactness theorems say exactly which integers
  survive. `IsDouble(n)` means that a double holds `n`, below the largest one. `Survives(n)` means that besides, the last
  decimal digit does not fall halfway between two doubles, or falls on a half that is rounded to `n`.
  The condition is exact within `REACH`, which is 10 * 2^53 + 9, about 9.0e16: up to there what
  comes before the last digit is exact. `Exact(v)` is `Survives` within `REACH`.
- A ghost `Tree` is a plain value that names the nodes and strings below a node. `Holds(t)` says
  that the heap looks like `t`, including every `prev` and `next`; `Objects(t)` is what the tree
  owns; `Apart(t)` says that nothing is owned twice. A reference node owns itself only. `Shows(t)`
  says what a reader sees, who follows references and does not care who owns what.
- `live` is the ghost set of allocated objects. Allocation adds to it, and freeing an object
  requires it to be a member and removes it, so `live' == live - Objects(t)` says that everything
  was freed exactly once, and nothing else.
- What the model and the standards both rest on is pinned to character tables, so that no two of
  them can be wrong in the same way: the digits (`Bytes.DigitIs`, `Strings.HexDigitIs`), the marks
  and keywords (`Bytes.MarksAre`, `Parser.KeywordsAre`), whitespace (`Bytes.SkipIs`), letter case
  (`Bytes.CaseEqualIs`), the printed escapes (`Strings.EscapeByteIs`) and the layout.
- `hide` statements keep definitions that a proof does not need away from the solver, and every
  lemma is marked `{:induction false}`, so that its induction is the one written in its body.

## Files

| file | contents |
|---|---|
| `Bytes`, `Bits`, `Parsed`, `Json` | bytes and texts, bit operations, parse results, the abstract value |
| `Numbers`, `Doubles`, `Nearest` | rounding, scanning and printing numbers, which integers the rounding digit loop leaves as they are, and that the rounding is to the nearest double |
| `NumberText`, `Widths` | the grammar of numbers and its meaning, the four integer widths |
| `Transcode`, `Strings`, `Sscanf` | surrogates and UTF-8, string literals, and what `sscanf` converts |
| `Parser`, `Grammar` | the parser as functions, RFC 8259 and completeness |
| `Accepted`, `Inside`, `Standard`, `Fractions` | exactly which texts are accepted, that no cursor steps over a NUL, when the value returned is the one the standards give, and numbers no double holds |
| `Printer`, `Layout` | the printer as functions, and what its two formats look like byte for byte |
| `RoundTrip`, `NormalForm` | round trip, normal form, injectivity |
| `Nodes`, `Sharing` | nodes and trees, and what is read through reference nodes |
| `Chain`, `Items` | chain operations, deletion, operations by name, references |
| `StringCode`, `NumberCode`, `ParseSteps`, `NodeParse` | the parse functions as they run |
| `Printout`, `NodePrint` | the text of a tree, its missing strings included, and the print functions as they run |
| `Cache`, `Below`, `Wrapper` | the caches as a state machine, changes below a child, the class `CJsonObject` |

## Properties that do not hold as one would expect

For each, the project proves exactly when the code does what is expected, and names an input for
which it does not.

- A surrogate pair decodes to its code point exactly when bit 16 of the offset is clear, because
  of the `|` at `cJSON.c:276`: `Transcode.CombineIsExact`, `Transcode.PlaneTwoIsLost`.
- The escape of U+0000, which section 7 of RFC 8259 allows, is dropped at `cJSON.c:265`. A string
  decodes to the text it stands for exactly when it has neither a lost bit nor a zero:
  `Strings.DecodeIsStandard`, `Strings.ZeroIsDropped`.
- Within 10 * 2^53 + 9 in magnitude an integer survives printing and parsing exactly when
  `Survives` holds of it: a double holds it, and its last digit does not round away from it. So
  2^53 + 1 is lost (`RoundTrip.FirstInexactInteger`), and so is 2^54 + 12, although a double holds
  it (`NumberText.DoubleIsLost`). The statements are `NumberText.RereadIsExact`,
  `RoundTrip.RoundTripExact`, `Widths.AddPrintParseGet`. At any magnitude only integers that a
  double holds survive: `NumberText.RereadIsDouble`, `RoundTrip.RoundTripNeedsDoubles`. With any
  zeros behind a number that survives the condition is exact in the whole range of the 64-bit
  types: `NumberText.RereadZeros`.
- A document whose numbers are integers is therefore returned as the standards define it exactly
  when no string or key in it has a lost bit or a zero and the digits of every number survive:
  `Standard.ParsedAsStandard`. For a number with a fraction or an exponent only its digits and its
  power of ten are compared, before the code scales them (`Standard.ParsedAsSpelled`). The number
  itself may be one that no double holds: the documents `0.1` and `1e400` keep their digits and are
  not stored as what they denote (`Fractions.TenthIsNotStored`, `Fractions.HugeIsNotStored`).
- Printing after parsing changes nothing on its own output exactly when the integers that were
  parsed survive: `NormalForm.PrintAfterParseIdempotent`. What is printed for the text
  `18014398509481995` is changed by a second turn: `NormalForm.NotIdempotent`.
- The parser accepts more than RFC 8259: a bare minus, a superfluous zero, an exponent without
  digits, any byte from 1 to 32 as whitespace, any escaped character, a `\u` with fewer digits or
  with what `sscanf` skips in front of them (`Strings.BlankIsSkipped`), a string at the top that is
  not terminated, and anything behind the value. `Accepted.AcceptedExactly` says that this is all.
- A mutation of a wrapper keeps its caches equal to fresh lookups exactly under `Cache.Safe`, which
  a caller can check before the call: `Cache.CoherentExactlyWhenSafe`. It fails for keys cached
  under another case (`Cache.StaleByCase`), for `Delete` at a negative index
  (`Cache.StaleByNegativeIndex`), for indexes of 2^31 and more, which are converted to negative
  ones and select child 0 (`Cache.StaleByHugeIndex`), and for the scalar overloads that do not
  evict (`Cache.StaleByScalarAdd`, `Cache.StaleByScalarChange`). Each of these is a run of two calls
  on a wrapper that has cached nothing.
- A `Replace` that returns false because the key or the index is not there has already made a copy
  of the other wrapper's tree, which nothing frees: `Wrapper.CJsonObject.ReplaceKeyed`,
  `Wrapper.CJsonObject.ReplaceIndexed`.

## Model

| member | source | states |
|---|---|---|
| Transcode.EncodeIsUtf8 | DNW_Server/Server/Json/cJSON.c:279-302 | the fall-through switch writes the UTF-8 encoding of RFC 3629 section 3 for every code point |
| Transcode.EncodeIsNulFree | DNW_Server/Server/Json/cJSON.c:279-302 | no byte of any code but zero is a NUL, codes past the last one of Unicode included |
| Transcode.CombineValue | DNW_Server/Server/Json/cJSON.c:268-277 | the value the `\|` computes for every surrogate pair: the code point of RFC 2781, less 0x10000 when bit 16 of the offset is set |
| Transcode.CombineIsExact | DNW_Server/Server/Json/cJSON.c:268-277 | the pair decodes to the UTF-8 of its code point if and only if bit 16 of the offset is clear; four bytes either way |
| Transcode.PlaneTwoIsLost | DNW_Server/Server/Json/cJSON.c:276 | the concrete pair of U+20000 decodes to U+10000 |
| Bytes.CaseEqualIs | DNW_Server/Server/Json/cJSON.c:43-54 | two names are equal for the comparison if and only if they are as long and at every index are the same byte or the two cases of one letter from A to Z |
| Bytes.SkipIs | DNW_Server/Server/Json/cJSON.c:402-407 | exactly the bytes from 1 to 32 at the front are skipped |
| Bytes.DigitIs | DNW_Server/Server/Json/cJSON.c:120-132 | a byte is a digit if and only if it stands in the table of the ten, and is worth its place |
| Strings.HexDigitIs | DNW_Server/Server/Json/cJSON.c:262-272 | a byte is a hexadecimal digit if and only if it stands in the lower-case or the upper-case table, and is worth its place |
| Strings.UnescapeIs | DNW_Server/Server/Json/cJSON.c:243-308 | five letters after a backslash stand for their control characters, and every other character for itself |
| Strings.EscapeByteIs | DNW_Server/Server/Json/cJSON.c:353-381 | the printed escapes are a backslash and the character of a table, or four digits in lower case for the other bytes below 32 |
| Sscanf.ItemIsRead | DNW_Server/Server/Json/cJSON.c:262 | white space, a sign, a prefix and digits, the last three at most four bytes and as long as can be, are converted to the number the digits make, negated modulo 2^32 behind a minus |
| Sscanf.ScanHexIs | DNW_Server/Server/Json/cJSON.c:262 | a number is stored if and only if such an item is there |
| Strings.ShiftedIs | DNW_Server/Server/Json/cJSON.c:286-301 | what the switch leaves in the variable that a later conversion may find unchanged |
| Strings.DecodeFits | DNW_Server/Server/Json/cJSON.c:227-303 | whatever the units of a literal, paired or not, the decoding pass writes at most the counted length |
| Strings.DecodeIsNulFree | DNW_Server/Server/Json/cJSON.c:265-311 | a decoded string holds no NUL, so it is the C string its terminator makes it |
| Strings.DecodeIsStandard | DNW_Server/Server/Json/cJSON.c:239-303 | a body of standard escapes whose surrogates are paired decodes to the text RFC 8259 section 7 gives it, by its own tables, if and only if no high surrogate in it has the lost bit and no escape in it is U+0000 |
| Strings.ZeroIsDropped | DNW_Server/Server/Json/cJSON.c:265 | the concrete literal of U+0000 stands for one character and decodes to none |
| Strings.LexOfBody | DNW_Server/Server/Json/cJSON.c:237-310 | every sequence of plain bytes and escapes, a short `\u` among them, is cut back into exactly those units, up to the quote or the NUL |
| Strings.LoopOfBody | DNW_Server/Server/Json/cJSON.c:236-313 | on well-formed units the decoding loop, whatever its two variables held before, writes what the units decode to and stops behind them |
| Strings.LoopIsNulFree | DNW_Server/Server/Json/cJSON.c:236-313 | whatever text the decoding loop gets through, it writes no NUL |
| Strings.RawOfBody | DNW_Server/Server/Json/cJSON.c:227-229 | on well-formed units the counting pass, which knows only backslashes and quotes, stops at the quote where the decoding pass stops, having counted every unit |
| Strings.ParseLiteral | DNW_Server/Server/Json/cJSON.c:214-317 | every literal parses to what its units decode to, and the cursor ends right after its quote |
| Strings.StringRoundTrip | DNW_Server/Server/Json/cJSON.c:214-386 | every NUL-free string, quoted by the printer and followed by anything, parses back to itself and stops at what follows |
| Strings.ParseString | DNW_Server/Server/Json/cJSON.c:214-317 | a successful call returns a cursor strictly past its start and within the text, and a C string, whatever escapes were read on the way |
| Strings.BlankIsSkipped | DNW_Server/Server/Json/cJSON.c:259-260 | the concrete literal with a blank behind `\u` is accepted, and its last digit is read twice |
| Strings.CodeTurnLeaves | DNW_Server/Server/Json/cJSON.c:262-307 | what `uc` and `uc2`, declared outside the loop, hold after a `\u`: the number read or the old one, without the bits that were written |
| Strings.UnitIsRepeated | DNW_Server/Server/Json/cJSON.c:262-307 | when the text behind a second `\u` is no number, the first bits of the code before it are written once more, or nothing when none are left |
| Doubles.AccumulateIsExact | DNW_Server/Server/Json/cJSON.c:123-126 | up to 10 * 2^53 + 9 the digit loop, rounding after every operation, ends with the decimal value if and only if a double holds it and its last digit does not round away from it |
| Doubles.AccumulateIsDouble | DNW_Server/Server/Json/cJSON.c:123-132 | at any magnitude, up to the largest double, the digit loop ends with a number a double holds |
| Nearest.RoundIsNearest | DNW_Server/Server/Json/cJSON.c:114-132 | at any magnitude no double is nearer to a number than what it is rounded to, and of two that are equally near it is rounded to the even multiple of their distance |
| Nearest.NearestIsOne | DNW_Server/Server/Json/cJSON.c:114-132 | there is only one such double, so this says what rounding is |
| Nearest.TurnIsNearest | DNW_Server/Server/Json/cJSON.c:123-132 | one turn of the digit loop is the nearest double to the sum of the digit and the nearest double to ten times the accumulator |
| Nearest.IsDoubleIs | DNW_Server/Server/Json/cJSON.c:114-132 | the doubles of the model are the numbers of 53 bits times a power of two |
| Numbers.StoredIsCast | DNW_Server/Server/Json/cJSON.c:145-150 | whatever was accumulated, the stored integer differs from it by a multiple of 2^64 and lies in the range its sign selects |
| Doubles.ZerosAreExact | DNW_Server/Server/Json/cJSON.c:123-132 | for a number that survives, with any zeros behind it, the digit loop ends with the decimal value if and only if a double holds it, up to the largest double |
| Numbers.IntTextFits | DNW_Server/Server/Json/cJSON.c:181-182 | the 22 bytes of `print_int` hold every 64-bit number, its sign and the NUL |
| NumberText.ScanOfLiteral | DNW_Server/Server/Json/cJSON.c:112-143 | every number of RFC 8259 section 6, and every lenient one, before anything that cannot continue it, is read to its end, sign, digits and exponent apart |
| NumberText.SpelledNumber | DNW_Server/Server/Json/cJSON.c:112-143 | the converse: whatever starts like a number and was scanned is the text of such a literal, and what follows cannot continue it |
| NumberText.NumberMeaning | DNW_Server/Server/Json/cJSON.c:112-158 | sign, digits, scale and exponent denote exactly the rational number the literal stands for, and the type is integer if and only if there is no fraction and the exponent is zero |
| NumberText.RereadIsExact | DNW_Server/Server/Json/cJSON.c:145-150 | up to 10 * 2^53 + 9 in magnitude, printing an integer and parsing it gives it back if and only if a double holds it and its last digit does not round away from it |
| NumberText.RereadIsDouble | DNW_Server/Server/Json/cJSON.c:112-150 | at any magnitude an integer that printing and parsing give back is one a double holds |
| NumberText.RereadZeros | DNW_Server/Server/Json/cJSON.c:112-150 | in the whole range of the 64-bit types, a number that survives, with any zeros behind it, is given back by printing and parsing if and only if a double holds it |
| NumberText.DoubleIsLost | DNW_Server/Server/Json/cJSON.c:123-126 | the concrete integer 2^54 + 12, which a double holds, is not given back |
| Widths.LoadOfStore | DNW_Server/Server/Json/CJsonObject.cpp:843-1001 | for every number of the four widths, `Get` of the same width reads what `Add` stored, and the stored fields denote that number |
| Widths.LoadIsCast | DNW_Server/Server/Json/CJsonObject.cpp:549-663 | for every width and all fields, `Get` gives the one number of its width that differs from `valueint` by a multiple of 2^32, or of 2^64 |
| Widths.StoreIsCast | DNW_Server/Server/Json/CJsonObject.cpp:843-1001 | `Add` stores the number modulo 2^64, with sign -1 for the signed widths |
| Widths.SameText | DNW_Server/Server/Json/CJsonObject.cpp:238-264 | for all field values, `print_int` with its unsigned test and `operator()` with its signed one give the same text, the decimal of the number the fields denote |
| Widths.AddPrintParseGet | DNW_Server/Server/Json/CJsonObject.cpp:549-663 | for every width, the text of the stored fields, before anything that is no more of a number, is scanned to its end as an integer, and `Get` of the same width reads the number that was added if and only if it survives, up to 10 * 2^53 + 9; beyond, only if a double holds it |
| Parser.ParseValue | DNW_Server/Server/Json/cJSON.c:436-475 | a successful parse returns a cursor strictly past its start and within the text; the length left is the measure of the mutual recursion |
| Parser.ParseItems | DNW_Server/Server/Json/cJSON.c:530-551 | the comma loop makes progress at every turn, never passes the NUL, and collects at least one item |
| Parser.ParseMembers | DNW_Server/Server/Json/cJSON.c:642-682 | the same for the members of an object |
| Grammar.ParseComplete | DNW_Server/Server/Json/cJSON.c:436-683 | every derivation, lenient or not, at any nesting and with any whitespace, whose odd literals are read as their text where they stand, is parsed to the value it denotes, and the cursor stops exactly where its text ends |
| Grammar.RfcTextAccepted | DNW_Server/Server/Json/cJSON.c:402-423 | `cJSON_Parse` accepts every text of RFC 8259 sections 2 to 7 and stops right after it; the value is the one the source's own decoding gives the derivation |
| Accepted.AcceptedExactly | DNW_Server/Server/Json/cJSON.c:436-683 | any text is accepted with a value up to some point if and only if up to there it is the text of a derivation of that value, or is a string literal of units that runs into the NUL; a derivation spells every literal in units, but for those that cannot be, which have to be read as their text where they stand |
| Inside.ParseStaysInside | DNW_Server/Server/Json/cJSON.c:436-683 | wherever a successful parse leaves its cursor, it has not gone over a NUL, not even behind a `\u`, where four bytes are stepped over unseen |
| Standard.StandardIsRational | DNW_Server/Server/Json/cJSON.c:112-158 | the number a literal is said to denote, an integer or digits and a power of ten, is the rational of RFC 8259 section 6 |
| Standard.ParsedAsStandard | DNW_Server/Server/Json/cJSON.c:402-423 | for every text of RFC 8259 whose numbers are integers within reach and whose surrogates are paired, `cJSON_Parse` returns what the standards say it denotes if and only if no string or key has a lost bit or a zero and the digits of every number survive |
| Standard.ParsedAsSpelled | DNW_Server/Server/Json/cJSON.c:402-423 | the same with fractions and exponents, where a number is compared by its digits and its power of ten, before the code scales it |
| Standard.IntegralDenotes | DNW_Server/Server/Json/cJSON.c:152-158 | a text denotes a value without doubles if and only if no number in it has a fraction or an exponent but zero |
| Fractions.TenthIsNotStored | DNW_Server/Server/Json/cJSON.c:152-155 | the concrete document 0.1 keeps its digits, and no double is the number it denotes |
| Fractions.HugeIsNotStored | DNW_Server/Server/Json/cJSON.c:152-155 | the concrete document 1e400 keeps its digits, and every double is smaller than the number it denotes |
| RoundTrip.PrintIsEmit | DNW_Server/Server/Json/cJSON.c:555-781 | for both formats and every depth the printed text is the text of a derivation, so the printer never leaves the grammar |
| RoundTrip.PrintedIsRfc | DNW_Server/Server/Json/cJSON.c:320-386 | the derivation of a printed text is one of RFC 8259: its whitespace, escapes and numbers are all standard |
| RoundTrip.ParseOfPrint | DNW_Server/Server/Json/cJSON.c:214-781 | for every printable tree, format, depth and following text, parsing stops exactly at what follows and rebuilds the tree, its integers reread as a double holds them |
| RoundTrip.RoundTripExact | DNW_Server/Server/Json/cJSON.c:112-781 | the rebuilt tree is the same one if and only if every integer in it survives, for all trees with integers up to 10 * 2^53 + 9 in magnitude |
| RoundTrip.RoundTripNeedsDoubles | DNW_Server/Server/Json/cJSON.c:112-781 | at any magnitude the rebuilt tree is the same one only if a double holds every integer in it |
| RoundTrip.FirstInexactInteger | DNW_Server/Server/Json/cJSON.c:114-150 | the concrete integer 2^53 + 1 does not survive |
| RoundTrip.FormatIndependence | DNW_Server/Server/Json/cJSON.c:426-433 | the formatted and the unformatted text of every printable tree parse to the same value |
| NormalForm.ParsedIsPrintable | DNW_Server/Server/Json/cJSON.c:410-423 | whatever text was accepted, a double-free result can be printed |
| NormalForm.PrintOfParseIsNormal | DNW_Server/Server/Json/cJSON.c:410-433 | the print of an accepted double-free text with exact integers parses, to its end, to the same value |
| NormalForm.PrintAfterParseIdempotent | DNW_Server/Server/Json/cJSON.c:410-433 | print after parse changes nothing on its own output, in either format, if and only if the integers that were parsed survive, for all accepted double-free texts with integers up to 10 * 2^53 + 9 |
| NormalForm.NotIdempotent | DNW_Server/Server/Json/cJSON.c:410-433 | the concrete text 18014398509481995 parses to 2^54 + 12, whose own text parses to another number |
| NormalForm.PrintInjective | DNW_Server/Server/Json/CJsonObject.cpp:54-57 | two printable trees have the same text if and only if they are the same value, at every depth and in both formats |
| StringCode.CountLiteral | DNW_Server/Server/Json/cJSON.c:216-229 | the counting loop computes the length of every literal it does not run over the NUL of |
| StringCode.PutCode | DNW_Server/Server/Json/cJSON.c:279-302 | the switch, run backwards from the end, leaves exactly the encoding of the code between what was written before and the cursor, and the code shifted as far as its length says |
| StringCode.DecodeLiteral | DNW_Server/Server/Json/cJSON.c:235-313 | for every literal whose outcome is defined, into a block of the counted length and one byte the decoding loop writes the decoded string and its NUL, never past the block, and returns the cursor behind the literal |
| StringCode.PrintStringPtr | DNW_Server/Server/Json/cJSON.c:320-386 | the block has exactly the length of the quoted text and its NUL, and is filled to its last byte; null gives an empty text |
| NumberCode.AccumulateDigits | DNW_Server/Server/Json/cJSON.c:123-132 | the do loop takes the longest run of digits and rounds as it goes |
| NumberCode.ReadNumber | DNW_Server/Server/Json/cJSON.c:112-145 | the imperative scan computes sign, rounded digits, power of ten, type and cursor of the scanned literal |
| NumberCode.PrintInt | DNW_Server/Server/Json/cJSON.c:179-209 | 22 bytes hold the decimal text of the number the two fields denote |
| Nodes.SegConcat | DNW_Server/Server/Json/cJSON.h:50-63 | a doubly linked chain can be cut anywhere: both parts are chains whose ends point at each other, and the other way around |
| Sharing.HoldsShows | DNW_Server/Server/Json/cJSON.h:50-63 | a tree without references shows what it owns, so what is proved of reading applies to it |
| Sharing.ShowsLists | DNW_Server/Server/Json/cJSON.c:784-805 | a node lists the children it shows, which for a reference are the shared ones: counting and lookup apply to it |
| Chain.GetArraySize | DNW_Server/Server/Json/cJSON.c:784-791 | the walk along `next` counts the children, a reference node's shared ones included |
| Chain.GetArrayItem | DNW_Server/Server/Json/cJSON.c:792-798 | the child at the index, the first one for a negative index, null past the end |
| Chain.SuffixObject | DNW_Server/Server/Json/cJSON.c:808-812 | linking behind the last node makes one well-formed chain |
| Chain.AddItemToArray | DNW_Server/Server/Json/cJSON.c:827-842 | the children become the old ones and the new one, as a well-formed chain |
| Chain.AddItemToArrayHead | DNW_Server/Server/Json/cJSON.c:844-860 | the children become the new one and the old ones, as a well-formed chain |
| Chain.DetachItemFromArray | DNW_Server/Server/Json/cJSON.c:881-896 | the child at the index is out of the chain with no links left and its tree intact; past the end nothing happens |
| Chain.Exchange | DNW_Server/Server/Json/cJSON.c:924-931 | the new node stands in the chain where the old one stood, and the old tree is intact |
| Chain.Delete | DNW_Server/Server/Json/cJSON.c:94-109 | terminates, and frees every node and string of the chain and the subtrees below it exactly once, and nothing else; what a reference shares is not freed |
| Items.DeleteItemFromArray | DNW_Server/Server/Json/cJSON.c:897-900 | the child is gone from the chain and what it owned is freed; nothing out of range |
| Items.ReplaceItemInArray | DNW_Server/Server/Json/cJSON.c:917-934 | the new child is in the place of the old one, whose tree is freed; out of range nothing changes and the new item is not freed |
| Items.StrCaseCmp | DNW_Server/Server/Json/cJSON.c:43-54 | zero if and only if the name is present, and at every index the bytes are equal or the two cases of one letter from A to Z |
| Items.FindItem | DNW_Server/Server/Json/cJSON.c:801-804 | the walk stops at the first child that matches, and its index is that child's |
| Items.GetObjectItem | DNW_Server/Server/Json/cJSON.c:799-805 | the first child that matches, null when none does |
| Items.DetachItemFromObject | DNW_Server/Server/Json/cJSON.c:901-910 | detaches the child the lookup selects |
| Items.DeleteItemFromObject | DNW_Server/Server/Json/cJSON.c:911-914 | removes and frees the child the lookup selects, and nothing when there is none |
| Items.AddItemToObject | DNW_Server/Server/Json/cJSON.c:862-870 | appends the node under a fresh copy of the name, and frees the name it had |
| Items.ReplaceItemInObject | DNW_Server/Server/Json/cJSON.c:935-947 | puts the node in the place of the child the lookup selects, which is freed; a name the node had is not freed |
| Items.CreateReference | DNW_Server/Server/Json/cJSON.c:814-824 | a copy that shares children and string and owns itself only |
| Items.AddItemReferenceToArray | DNW_Server/Server/Json/cJSON.c:871-874 | the array comes to own the reference node only: the shared tree stays in place and allocated when the whole array is freed |
| Items.ReferenceIsItem | DNW_Server/Server/Json/cJSON.c:814-874 | an array that ends in a reference shows the shared tree's value as its last item, so that is what is printed and looked up there |
| Items.FoundAfterAdd | DNW_Server/Server/Json/cJSON.c:862-870 | adding under a present key leaves what every lookup finds; under an absent one the new child is found |
| Items.FoundAfterDelete | DNW_Server/Server/Json/cJSON.c:901-914 | deleting by name exposes the next child of that name, and leaves all other names as they were |
| Items.FoundAfterReplace | DNW_Server/Server/Json/cJSON.c:935-947 | replacing by name keeps the index and the number of children, and leaves all other names as they were |
| Items.CreateInt | DNW_Server/Server/Json/cJSON.c:990-1001 | a node of its own that denotes the number of its two fields |
| ParseSteps.ItemsNext | DNW_Server/Server/Json/cJSON.c:534-545 | one turn of the loop of `parse_array` keeps "what was parsed so far, and what is still to come" equal to the whole result |
| ParseSteps.MembersNext | DNW_Server/Server/Json/cJSON.c:656-677 | the same for `parse_object` |
| NodeParse.ParseNumber | DNW_Server/Server/Json/cJSON.c:112-159 | the node denotes the scanned number, and the cursor is at its end |
| NodeParse.ParseString | DNW_Server/Server/Json/cJSON.c:214-317 | the node owns one new block with the decoded string; at a text that is no string nothing was allocated |
| NodeParse.ParseValue | DNW_Server/Server/Json/cJSON.c:436-475 | the heap parser returns what the function returns, its node is the tree of that value, and on success and failure alike the allocated objects are the old ones and those of the tree |
| NodeParse.ParseItems | DNW_Server/Server/Json/cJSON.c:525-551 | the children form a chain owned once, and at every failure exit all that was allocated is reachable from it |
| NodeParse.ParseMembers | DNW_Server/Server/Json/cJSON.c:639-682 | the same for an object, whose keys have moved from `valuestring` to `string` |
| NodeParse.Parse | DNW_Server/Server/Json/cJSON.c:410-423 | null exactly when the text does not start with a value, and then every object allocated on the way is freed again; otherwise a new tree of the value that owns all that was allocated |
| NodePrint.StrCpy | DNW_Server/Server/Json/cJSON.c:605-606 | copies the string and its NUL behind the cursor and leaves what is before the cursor |
| Printout.ProperPrints | DNW_Server/Server/Json/cJSON.c:478-781 | where every string and name is there, the text of the tree is the text of its value, at every depth and in both formats |
| Layout.ScalarLayout | DNW_Server/Server/Json/cJSON.c:478-511 | the text of null, the booleans, an integer and a string, in literals, the same in both formats |
| Layout.ArrayLayout | DNW_Server/Server/Json/cJSON.c:595-619 | the items stand between the brackets, joined by a comma, and a blank when formatted |
| Layout.FormattedLayout | DNW_Server/Server/Json/cJSON.c:742-780 | every member stands on a line of its own behind one tab more than the object, with one tab behind its colon, and the closing brace behind the object's tabs |
| Layout.CompactLayout | DNW_Server/Server/Json/cJSON.c:742-780 | without format the members stand between the braces, joined by commas, a colon behind the name |
| Layout.CompactIsBare | DNW_Server/Server/Json/cJSON.c:555-781 | a text printed without format has no byte below 33 outside its string literals |
| Printout.BlockTextIs | DNW_Server/Server/Json/cJSON.c:320-328 | a string or name that is not there prints as nothing, any other as its escapes between quotes |
| NodePrint.PutItems | DNW_Server/Server/Json/cJSON.c:601-619 | fills the block with the entries and their separators within its size, leaving exactly the stated slack |
| NodePrint.PutMembers | DNW_Server/Server/Json/cJSON.c:747-771 | the same for the lines of an object at any depth |
| NodePrint.PrintChildren | DNW_Server/Server/Json/cJSON.c:563-580 | the entries are the texts of the children, and `len` adds up to five and every entry's text and two or three more bytes |
| NodePrint.PrintNamed | DNW_Server/Server/Json/cJSON.c:690-723 | the entries are the texts of names and children, missing names empty, and `len` adds up to seven, the depth, and every member's two texts and their extra bytes |
| NodePrint.PrintArray | DNW_Server/Server/Json/cJSON.c:555-622 | the block holds the text of the array; its size exceeds what is written by two bytes when empty, else by the number of entries and three, and one more when formatting |
| NodePrint.PrintObject | DNW_Server/Server/Json/cJSON.c:686-781 | the block holds the text of the object; its size exceeds what is written by exactly five bytes, four when empty |
| NodePrint.PrintValue | DNW_Server/Server/Json/cJSON.c:478-511 | for every tree without doubles, depth and format the heap printer returns the text of the tree, through references and with empty texts for missing strings and names |
| Cache.AddKeyExact | DNW_Server/Server/Json/CJsonObject.cpp:752-801 | `Add` by key, evicting or not, keeps the caches coherent if and only if the key was found before or no other cached key equals it up to case |
| Cache.ReplaceKeyExact | DNW_Server/Server/Json/CJsonObject.cpp:1158-1201 | `Replace` by key keeps coherence if and only if nothing was found or only the evicted key is cached for it |
| Cache.DeleteKeyExact | DNW_Server/Server/Json/CJsonObject.cpp:1123-1156 | the same for `Delete` by key |
| Cache.AddItemExact | DNW_Server/Server/Json/CJsonObject.cpp:1760-1819 | the object-valued `Add` on an array always keeps coherence; the scalar one if and only if no cached index selects the new place |
| Cache.AddFirstExact | DNW_Server/Server/Json/CJsonObject.cpp:2157-2208 | the object-valued `AddAsFirst` always keeps coherence; the scalar one if and only if every cached index is past the end |
| Cache.ReplaceAtExact | DNW_Server/Server/Json/CJsonObject.cpp:2588-2631 | `Replace` by index keeps coherence if and only if only the evicted index is cached for the replaced child |
| Cache.DeleteAtExact | DNW_Server/Server/Json/CJsonObject.cpp:2546-2586 | `Delete` by index keeps coherence if and only if no cached index below the eviction bound selects the deleted child or one after it |
| Cache.ChangeExact | DNW_Server/Server/Json/CJsonObject.cpp:133-211 | a change below a child, made through the wrapper handed out for it, changes no lookup and keeps the caches coherent |
| Cache.OpenKeeps | DNW_Server/Server/Json/CJsonObject.cpp:752-775 | a failing `Add` that gives an empty wrapper an empty root keeps the caches coherent, and every live hit live |
| Cache.CoherentExactlyWhenSafe | DNW_Server/Server/Json/CJsonObject.cpp:133-211 | for every operation, a failing `Add`, `Clear`, `Parse` and assignment included: a coherent wrapper stays coherent if and only if a condition on the state before the call holds |
| Cache.StaleByCase | DNW_Server/Server/Json/CJsonObject.cpp:1144-1154 | from an object that has cached nothing: look up `A`, delete `a`, and the wrapper cached for `A` points at a freed node |
| Cache.StaleByNegativeIndex | DNW_Server/Server/Json/CJsonObject.cpp:2567-2584 | look up index 0, delete index -1, and the wrapper cached for index 0 points at a freed node |
| Cache.StaleByHugeIndex | DNW_Server/Server/Json/CJsonObject.cpp:2588-2631 | look up index 2^31, replace index 0, and the wrapper cached for 2^31 points at a freed node |
| Cache.StaleByScalarAdd | DNW_Server/Server/Json/CJsonObject.cpp:843-1001 | look up a missing key, add it with a scalar overload, and the empty wrapper stays cached |
| Cache.StaleByScalarChange | DNW_Server/Server/Json/CJsonObject.cpp:2210-2665 | look up index 0, then replace it or add in front of it with a scalar overload, and the cached wrapper is not what a fresh lookup gives |
| Cache.RunsStayCoherent | DNW_Server/Server/Json/CJsonObject.cpp:133-211 | over every run of lookups, object-valued calls that succeed or fail, deletes, changes below children, and new trees for the wrapper itself, with indexes below 2^31 and no two keys equal up to case, every cached pointer is what a fresh lookup would give, null included |
| Cache.RunsKeepHits | DNW_Server/Server/Json/CJsonObject.cpp:59-131 | with the scalar `Add` overloads and `AddEmptySub...` in the run as well, under any keys, every cached pointer that is not null still is |
| Cache.LookupIsLive | DNW_Server/Server/Json/CJsonObject.cpp:133-211 | what a lookup finds is one of the present children |
| Below.Reassembled | DNW_Server/Server/Json/cJSON.h:50-63 | the heap looks like a tree with another child in one place if and only if it looks like that child there and everything around it is in place |
| Wrapper.CJsonObject.AtKey | DNW_Server/Server/Json/CJsonObject.cpp:133-171 | `operator[]` by key takes the cache through the lookup step; a cached wrapper is returned as it is, a new one borrows what a fresh lookup finds |
| Wrapper.CJsonObject.AtIndex | DNW_Server/Server/Json/CJsonObject.cpp:173-211 | the same by index, which is converted to `int` |
| Wrapper.CJsonObject.Adopt | DNW_Server/Server/Json/CJsonObject.cpp:133-211 | after a change of the heap below child `i` and nowhere else, the wrapper is valid again around the new child, which is the `ChangeChild` step of the cache |
| Wrapper.CJsonObject.HandOut | DNW_Server/Server/Json/CJsonObject.cpp:133-171 | while the cache is coherent, `operator[]` on a present key hands out a wrapper that borrows that child, whenever the wrapper was made |
| Wrapper.CJsonObject.AddInside | DNW_Server/Server/Json/CJsonObject.cpp:133-801 | `w[a].Add(b, o)` appends below the child, takes the outer cache through a lookup and a change below that child, keeps it coherent, and leaves inner and outer wrapper valid |
| Wrapper.CJsonObject.AddKeyed | DNW_Server/Server/Json/CJsonObject.cpp:752-801 | the object and the cache go through the add step with a new tree of the other wrapper's value; when it fails nothing changes but the root an empty wrapper gets; what is allocated is the tree afterwards and what was allocated before |
| Wrapper.CJsonObject.AddAppended | DNW_Server/Server/Json/CJsonObject.cpp:1760-1819 | the same for an array, erasing cached indexes from the last one on |
| Wrapper.CJsonObject.AddAsFirst | DNW_Server/Server/Json/CJsonObject.cpp:2157-2208 | the same in front, erasing every cached index |
| Cache.CStrIs | DNW_Server/Server/Json/CJsonObject.cpp:133-171 | a C++ string is passed on up to its first NUL |
| Cache.EntriesAfter | DNW_Server/Server/Json/CJsonObject.cpp:752-2631 | for every operation, exactly which entries leave the two maps, with literal bounds, and that the others keep their pointers |
| Wrapper.CJsonObject.ReplaceKeyed | DNW_Server/Server/Json/CJsonObject.cpp:1158-1201 | true exactly when the key is found and the other wrapper is not empty, and then object and cache go through the replace step and the old child is freed; else nothing changes, and a copy that was made is leaked |
| Wrapper.CJsonObject.ReplaceIndexed | DNW_Server/Server/Json/CJsonObject.cpp:2588-2631 | the same by index |
| Wrapper.CJsonObject.DeleteKeyed | DNW_Server/Server/Json/CJsonObject.cpp:1123-1156 | object and cache go through the delete step and exactly the found child is freed; true for every object whether the key is found or not |
| Wrapper.CJsonObject.DeleteIndexed | DNW_Server/Server/Json/CJsonObject.cpp:2546-2586 | the same by index |
| Wrapper.CJsonObject.EraseFrom | DNW_Server/Server/Json/CJsonObject.cpp:2568-2584 | the iterator loop leaves exactly the entries below the bound |
| Wrapper.CJsonObject.AddInt | DNW_Server/Server/Json/CJsonObject.cpp:843-1001 | the integer overloads append a node that denotes the number, and evict nothing |
| Wrapper.CJsonObject.AppendInt | DNW_Server/Server/Json/CJsonObject.cpp:1863-2029 | the same on an array |
| Wrapper.CJsonObject.AddEmptySub | DNW_Server/Server/Json/CJsonObject.cpp:59-131 | appends an empty object or array and evicts nothing |
| Wrapper.CJsonObject.GetInt | DNW_Server/Server/Json/CJsonObject.cpp:549-663 | true exactly for a present integer, and then its fields read with the width asked for |
| Wrapper.AddedIntIsRead | DNW_Server/Server/Json/CJsonObject.cpp:843-1001 | a number added under an absent key is what the lookup selects and the same-width `Get` returns |
| Wrapper.CJsonObject.TextAt | DNW_Server/Server/Json/CJsonObject.cpp:213-286 | the string of a string, the decimal text of an integer, the two boolean words, and the empty string for the rest, doubles included |
| Wrapper.CJsonObject.GetObject | DNW_Server/Server/Json/CJsonObject.cpp:486-518 | the other wrapper, all it owned and cached freed, gets a tree of its own for the child's value; with exact integers its `ToString` is the unformatted print of the child, although the formatted one was parsed |
| Wrapper.CJsonObject.GetItem | DNW_Server/Server/Json/CJsonObject.cpp:1494-1526 | the same by index |
| Wrapper.CJsonObject.ToText | DNW_Server/Server/Json/CJsonObject.cpp:445-483 | the printed text of the owned or borrowed tree, empty for an empty wrapper |
| Wrapper.CJsonObject.DestroyAll | DNW_Server/Server/Json/CJsonObject.cpp:383-402 | the loop over a map of cached wrappers runs every destructor and frees every wrapper, each with all it owns, exactly once |
| Wrapper.CJsonObject.Renewed | DNW_Server/Server/Json/CJsonObject.cpp:363-403 | what `Clear`, `Parse` and assignment leave behind is the step of the cache that takes another tree and empties both maps |
| Wrapper.CJsonObject.Clear | DNW_Server/Server/Json/CJsonObject.cpp:375-403 | terminates, and frees exactly once the owned tree, every cached wrapper, and all that these own in turn, at any depth; a borrowed tree is left alone; both maps are empty |
| Wrapper.CJsonObject.Parse | DNW_Server/Server/Json/CJsonObject.cpp:363-373 | what was owned and cached is freed; the wrapper then owns a new tree of the text's value, or is empty |
| Wrapper.CJsonObject.Copy | DNW_Server/Server/Json/CJsonObject.cpp:37-41 | the copy has the other wrapper's value, as its text rereads, in a tree that shares no object with it |
| Wrapper.CJsonObject.Equals | DNW_Server/Server/Json/CJsonObject.cpp:54-57 | `operator==` holds if and only if both are empty or both denote the same value |

## Left out

- Doubles: `print_double`, `pow`, `valuedouble`, the integer field of a double, and the float and double overloads; `%f` text is lossy. A double node keeps the mantissa that the rounding digit loop left and its power of ten, and printing requires double-free trees.
- NodeParse.ParseNumber: the value and the integer field of a double node are not computed; the cast of an accumulator of 2^64 or more to `uint64`, which C leaves undefined, is reduced modulo 2^64, and `subscale` does not overflow.
- NumberText.RereadIsExact: beyond 10 * 2^53 + 9 in magnitude the condition is exact for a number with zeros behind it (`NumberText.RereadZeros`), and necessary for all (`NumberText.RereadIsDouble`): there the digits before the last one need not be exact.
- Doubles.AccumulateIsDouble: the exponent is not bounded; from 2^1024 on the accumulator of the source is infinite.
- Doubles.AccumulateIsExact: says when only up to 10 * 2^53 + 9.
- RoundTrip.RoundTripExact: says when only for integers up to 10 * 2^53 + 9; `RoundTrip.RoundTripNeedsDoubles` is necessity beyond it, and `RoundTrip.ParseOfPrint` covers every integer with the rounding applied.
- NormalForm.PrintAfterParseIdempotent: says when only up to 10 * 2^53 + 9.
- Widths.AddPrintParseGet: says when only up to 10 * 2^53 + 9.
- Standard.ParsedAsStandard: numbers up to 10 * 2^53 + 9 only. Those with a fraction or an exponent are left to `Standard.ParsedAsSpelled`.
- Standard.ParsedAsSpelled: digits that make up to 10 * 2^53 + 9 only. What `pow` and the product make of digits and power of ten is not computed: the document `0.1` meets the condition, and what is stored is not one tenth.
- Allocation failures and `cJSON_InitHooks`: every allocation succeeds.
- Error text: `ep`, `cJSON_GetErrorPtr` and `m_strErrMsg`.
- Integer overflow of the `int` counters for lengths and children, and the depth of the C stack.
- NodePrint.PrintArray: the array of entry pointers is a sequence, and freeing the entries and the array after use is not tracked. A reference among the entries is printed as what it shows.
- NodePrint.PrintObject: as for arrays, for names and entries.
- Wrapper.CJsonObject.AddKeyed: the set of allocated objects holds nodes and strings of trees; the texts that are printed to make a copy are not followed. The same holds for the other methods of the class.
- Wrapper.CJsonObject.EraseFrom: the destructors of erased wrappers, which `Wrapper.CJsonObject.Clear` follows, are not run when `Add`, `Replace` and `Delete` evict; only the map entries go.
- Wrapper.CJsonObject.AddInside: one method of a handed-out wrapper is written out; the others go through `Adopt` in the same way. The child must be present, and the wrapper cached for it must not own a tree.
- Wrapper.CJsonObject.AddInt: the four integer overloads are one method with a width. The string and boolean overloads of `Add`, `Replace`, `AddAsFirst` and `Get`, the scalar `Replace` and `AddAsFirst`, and `Get` and `operator()` by index are not written out as methods; their effect on the caches is part of the state machine.
- Cache.RunsStayCoherent: `Parse`, `Clear` and assignment on a cached wrapper, which cut it off from its child, are not part of a run; every other call on it is a `ChangeChild`.
- Cache.RunsKeepHits: the same.
- `cJSON_AddItemReferenceToObject`, `cJSON_CreateIntArray` and the other array constructors, `cJSON_CreateString`, `IsEmpty`, `IsArray`, `GetArraySize` of the wrapper: compositions of what is modelled.
- Everything outside `DNW_Server/Server/Json`: the game server, its protobuf code and build files.
