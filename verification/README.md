# Verified model of the token formatter, the fallback C library, the print engine and the documentation generator

This project models the parts of the repository whose code carries real algorithms, and proves what they promise.
`dafny verify dfyconfig.toml` checks everything.

| area | source | modules |
|---|---|---|
| Token buffer of the Zydis formatter | `extern/Zydis/Internal/FormatterBase.h`, `extern/Zydis/Internal/String.h` | `Tokens`, `TokenBuffer`, `TokenRuns`, `ZyanString`, `ZyanNumber` |
| Fallback C library of Zycore | `extern/Zycore/LibC.h` | `Bytes`, `LibC`, `StrTok` |
| Print engine and error message of the driver | `LMalz_Driver/src/errput.cpp` | `Numbers`, `Printing`, `Format`, `FormatProofs`, `FormatItems`, `Interpreter`, `ErrPut` |
| Text wrapping and justification of ia32-doc | `extern/ia32-doc/ia32doc/text.py` | `PyString`, `TextParagraphs`, `Justify`, `GapProofs`, `JustifyProofs`, `Wrap`, `WrapProofs`, `WrapEdges` |
| Bit-field layout and struct sizes of ia32-doc | `extern/ia32-doc/ia32doc/processors/c_processor.py`, `extern/ia32-doc/ia32doc/doc.py` | `Bits`, `Bitfield`, `BitfieldProofs`, `BitfieldLines`, `BitfieldStorage`, `DocSize`, `DocSizeProofs` |

`Arith`, `Memory` and `Wrappers` hold arithmetic, the notion of writing a stretch of memory, and optional values. Code
that changes memory, cursors, globals or objects in place is modelled by methods on arrays and classes; each is proved
equal to a function of its inputs and the old state, and the theorems are about those functions; where a theorem
speaks of a whole run, a method that makes the calls is proved to go through the states of that run. Pointers are
indices into a block; -1 is null. A long C or Python function is split into a few methods where its loops or branches
are.

What the theorems show about the code, where that is more, or less, than one would expect:

- `strstr` returns null for an empty needle in an empty haystack, although the needle occurs there (section 7.24.5.7 of
  ISO C11 asks for the haystack itself).
- `memcpy` agrees with `memmove` exactly when the destination does not start behind the start of the source, or every
  byte of the source equals the byte that lies the distance of the two blocks before it.
- `%u`, `%x` and `%X` read their argument as a signed `int` and widen it, so `%u` is right exactly below 2^31.
- Padding on the right with zeros changes the number, except zero itself.
- A format that ends with a lone `%` prints nothing for it, but swallows a `%` that follows; all other formats compose.
- A bullet item with a single word is never stretched. Behind a bullet the spaces are not even: the first gap is one
  space and the second takes what is missing, so with 23 spaces for three gaps they are 1, 15 and 7. Behind the bullet
  no two of n gaps for W spaces differ by more than one exactly when n = 2, 2W <= 3n, or W = 2n.
- `wrap_justify` divides by zero for an empty text at width zero; `wrap_paragraph` does so exactly when it justifies, at
  width zero, nothing but whitespace after a space, or a text with a blank piece.
- A first word too wide for its paragraph is printed twice.
- A `?` size is stored in a dictionary that two structs may share; the second is then right only if both leave the same
  rest. A declared size that is not a number counts as -1.
- A bit-field declares its members and `Flags` without the array suffix, which holds the word only for 8, 16, 32 or 64
  bits. For those sizes a compiler that packs storage units lays the members out without holes; in general it does so
  exactly if no member crosses the border of a unit.
- Visiting a tree of structs succeeds exactly if every size that is declared with a type is a whole number of bytes.
- The letter case of `ZYDIS_BUFFER_APPEND_CASE` is ignored for token lists, so the two output modes agree exactly when
  the converted string equals the token literals.

## Model

| member | source | states |
|---|---|---|
| TokenBuffer.FormatterBuffer.AppendPredefined | extern/Zydis/Internal/FormatterBase.h:224-249 | succeeds if and only if the string size plus the size of the data is below the capacity; then the tokens are concatenated, and string pointer, sizes and capacities are those of the new last literal; a rejected append changes nothing; data offset plus capacity stays constant; nothing outside the tokens is written; the invariant survives |
| TokenBuffer.FormatterBuffer.TakeOver | extern/Zydis/Internal/FormatterBase.h:236-246 | the new data pointer, capacity and string capacity again describe the last literal of the longer list |
| TokenBuffer.FormatterBuffer.WritePredefined | extern/Zydis/Internal/FormatterBase.h:236-239 | the 8-bit link and the copied bytes turn the encoding of the old list into that of the concatenated list |
| TokenBuffer.FormatterBuffer.WriteTokens | extern/Zydis/Internal/FormatterBase.h:236-239 | the two writes, and that no other byte changes |
| TokenBuffer.FormatterBuffer.AppendString | extern/Zydis/Internal/String.h:132-150 | succeeds if and only if the string size plus the length is at most the string capacity; then the last literal, or the plain string, is extended; otherwise nothing changes |
| TokenBuffer.FormatterBuffer.AppendShortString | extern/Zydis/Internal/String.h:231-250 | the same for a short string |
| TokenBuffer.FormatterBuffer.AppendStringCase | extern/Zydis/Internal/String.h:162-221 | the same with the text in a letter case |
| TokenBuffer.FormatterBuffer.AppendShortStringCase | extern/Zydis/Internal/String.h:262-321 | the same for a short string in a letter case |
| TokenBuffer.FormatterBuffer.AppendSigned | extern/Zydis/Internal/String.h:363-387 | a signed number on the current literal or string; a failure leaves exactly the parts that fit, and the buffer stays valid |
| TokenBuffer.FormatterBuffer.AppendNumberParts | extern/Zydis/Internal/String.h:367-386 | both branches of it, for digits that are already known |
| TokenBuffer.FormatterBuffer.Append | extern/Zydis/Internal/FormatterBase.h:155-162 | both branches of the macro: when each succeeds, in sizes and capacities, and the tokens or the text it adds |
| TokenBuffer.FormatterBuffer.AppendInCase | extern/Zydis/Internal/FormatterBase.h:173-180 | the same with a letter case, which only the plain branch applies |
| TokenBuffer.FormatterBuffer.DecodesToTokens | extern/Zydis/FormatterBuffer.h:138-183 | following the offsets from the first token reads back exactly the abstract token list |
| TokenBuffer.AppendBytes | extern/Zydis/Internal/FormatterBase.h:236-239 | link byte and copied block make the encoding of the concatenated list |
| TokenBuffer.ExtendBytes | extern/Zydis/Internal/String.h:132-150 | appending behind the last literal makes the encoding of the list with a longer last literal |
| Tokens.DecodeEncode | extern/Zydis/FormatterBuffer.h:207-215 | walking the offsets is the inverse of the encoding, wherever it stands in memory |
| Tokens.EncodeAppend | extern/Zydis/Internal/FormatterBase.h:224-249 | a concatenated list is the old bytes with one offset set, followed by the new bytes |
| TokenRuns.DoIsSafe | extern/Zydis/Internal/FormatterBase.h:155-180 | one append keeps the invariant and the end of the buffer; a failed one changes nothing, except that a number may leave its first parts |
| TokenRuns.RunsAreSafe | extern/Zydis/Internal/FormatterBase.h:224-249 | over every run of macro, string and number appends the literal fits both the capacity and an 8-bit offset, the bytes used stay within the buffer, and its end never moves |
| TokenRuns.TokensFitExactly | extern/Zydis/Internal/FormatterBase.h:232-246 | predefined tokens are appended if and only if their bytes and one more fit behind the bytes used; the tokens and the room afterwards, or no change |
| TokenRuns.TextFitsExactly | extern/Zydis/Internal/String.h:132-150 | text is appended if and only if it fits the buffer and its literal an 8-bit offset; the last literal or the string afterwards, or no change |
| TokenRuns.MacroFitsExactly | extern/Zydis/Internal/FormatterBase.h:164-180 | one macro on a token list succeeds if and only if the size of its data fits with a byte to spare |
| TokenRuns.MacroRunFitsExactly | extern/Zydis/Internal/FormatterBase.h:224-249 | a run of macros on a token list succeeds if and only if all bytes it brings along fit with one to spare, and then it has appended all their tokens in order |
| TokenRuns.Perform | extern/Zydis/Internal/FormatterBase.h:155-180 | each append on the buffer object is the abstract append of its state |
| TokenRuns.PerformAll | extern/Zydis/Internal/FormatterBase.h:224-249 | a run on the buffer object goes through the states of the abstract run, and in the end its memory decodes to exactly their tokens, or holds exactly their text |
| TokenRuns.PerformInBothModes | extern/Zydis/Internal/FormatterBase.h:155-162 | the same run on a token buffer and a string: if both succeed and all texts are the same, the literals decoded from memory and joined are the string |
| TokenRuns.DoShows | extern/Zydis/Internal/FormatterBase.h:155-180 | a successful append adds exactly its own text to what the buffer shows |
| TokenRuns.ModesAgree | extern/Zydis/Internal/FormatterBase.h:155-180 | if every append carries the same text in both modes, the token literals joined are the plain string after every run that succeeds in both |
| TokenRuns.ModesAgreeExactlyOnSameText | extern/Zydis/Internal/FormatterBase.h:164-180 | for a single append the condition is exact |
| TokenRuns.ModesAgreeThroughout | extern/Zydis/Internal/FormatterBase.h:155-180 | along a run that succeeds in both modes the texts agree after every append if and only if every append has the same text in both |
| TokenRuns.LetterCaseSplitsModes | extern/Zydis/Internal/FormatterBase.h:164-180 | two empty buffers and a constant with a letter case: both appends succeed and the shown texts differ |
| ZyanString.ZyanString.Append | extern/Zydis/Internal/String.h:132-150 | succeeds exactly when the result fits; then old text plus source, terminated, and no other byte changed; otherwise nothing changed |
| ZyanString.ZyanString.AppendCase | extern/Zydis/Internal/String.h:162-221 | the same with the source mapped to lower or upper case |
| ZyanString.ZyanString.AppendShort | extern/Zydis/Internal/String.h:231-250 | the same for a short string that brings its terminator along |
| ZyanString.ZyanString.AppendShortCase | extern/Zydis/Internal/String.h:262-321 | the same with a letter case; the copied terminator survives the conversion |
| ZyanString.ZyanString.ConvertCase | extern/Zydis/Internal/String.h:181-210 | the in-place loops change exactly the letters of the other case within their range |
| ZyanString.CaseMaps | extern/Zydis/Internal/String.h:181-210 | setting or clearing bit 5 is adding or taking 32, never makes a terminator, and each direction undoes the other; the default case changes nothing |
| ZyanNumber.AppendS | extern/Zydis/Internal/String.h:363-387 | success, exactly when all of it fits, appends sign, prefix, digits of the absolute value and suffix; a failure appends exactly the parts that fit; the text before and all other memory stay |
| ZyanNumber.AppendNegative | extern/Zydis/Internal/String.h:367-376 | sign, prefix and number are three appends, each of which may be the last |
| ZyanNumber.AppendNonNegative | extern/Zydis/Internal/String.h:378-386 | the forced sign is one append, the prefix and the number another |
| ZyanString.TextGrew | extern/Zydis/Internal/String.h:132-150 | what several appends have added stands behind the text of before |
| ZyanNumber.AppendU | extern/Zydis/Internal/String.h:343-344 | stand-in for the documented contract of the unsigned appenders: prefix, digits and suffix, if all of it fits |
| ZyanNumber.SignedTextReads | extern/Zydis/Internal/String.h:435-460 | the appended text decodes to the value, the minimum 64-bit integer included, in both radixes and for every prefix, also one that looks like a sign |
| ZyanNumber.SignedTextIs | extern/Zydis/Internal/String.h:363-387 | the text spelled out: "-", a forced "+" or nothing, the prefix, zeros up to the padding length or one forced in front of a letter, the numeral of the absolute value without leading zeros in the letter case asked for, the suffix |
| ZyanNumber.KeptIsLongestCut | extern/Zydis/Internal/String.h:363-387 | what an append leaves is the longest that fits of nothing, the sign, the sign and prefix of a negative number, and the whole text |
| ZyanNumber.AbsI64 | extern/Zycore/Format.h:59-70 | the absolute value of every 64-bit integer, as an unsigned one |
| LibC.MemMove | extern/Zycore/LibC.h:275-293 | for every overlap the destination gets the old source bytes and no other byte changes |
| LibC.MemCpy | extern/Zycore/LibC.h:264-273 | what a forward copy stores for every overlap, and that no other byte changes |
| LibC.MemCpyIsMemMove | extern/Zycore/LibC.h:264-293 | the two agree if and only if the destination does not start behind the source, or the source bytes repeat with the distance; always if the ranges are disjoint |
| LibC.PeriodicCopy | extern/Zycore/LibC.h:264-273 | in a source that repeats with the distance every byte copied forward is the right one |
| LibC.MemCmp | extern/Zycore/LibC.h:250-262 | zero exactly for equal blocks, otherwise the sign of the first difference; reads nothing behind it |
| LibC.StrLen | extern/Zycore/LibC.h:368-376 | the length up to the first terminator |
| LibC.StrChr | extern/Zycore/LibC.h:316-326 | the first occurrence, the terminator included, or null exactly if there is none |
| LibC.StrSpn | extern/Zycore/LibC.h:450-458 | the longest prefix within the set |
| LibC.StrCSpn | extern/Zycore/LibC.h:354-366 | the longest prefix outside the set |
| LibC.SkipInIs | extern/Zycore/LibC.h:450-458 | the recursive form of that prefix and the direct one define each other |
| LibC.SkipOutIs | extern/Zycore/LibC.h:354-366 | the same outside the set |
| LibC.StrPBrk | extern/Zycore/LibC.h:425-435 | the first byte in the set, null exactly if `strcspn` reaches the end |
| LibC.StrStr | extern/Zycore/LibC.h:460-471 | the least matching index; null exactly when none exists, or haystack and needle are empty |
| LibC.EmptyInEmptyIsNull | extern/Zycore/LibC.h:460-471 | for two empty strings the result is null although the needle occurs |
| LibC.CompareStopsInTime | extern/Zycore/LibC.h:460-471 | a comparison inside `strstr` never reads past the terminator of the haystack and finds a match exactly where the needle occurs |
| StrTok.Tokenizer.StrTok | extern/Zycore/LibC.h:473-492 | one call in terms of the saved pointer: the memory, the pointer and the result |
| StrTok.Tokenizer.NextToken | extern/Zycore/LibC.h:484-491 | skip delimiters, cut one byte behind the token, save the pointer behind it, or report the end |
| StrTok.StringBehind | extern/Zycore/LibC.h:490 | cutting leaves the rest of the string behind the cut, with the same end |
| StrTok.RunFindsTokens | extern/Zycore/LibC.h:473-492 | the calls up to null return the starts of the tokens and change only the byte behind each |
| StrTok.TokensAreMaximalRuns | extern/Zycore/LibC.h:484-485 | the tokens are exactly the maximal delimiter-free runs |
| StrTok.StrTokFindsAllTokens | extern/Zycore/LibC.h:473-492 | section 7.24.5.8 of ISO C11: all maximal runs in order, each a terminated string in the end, only the bytes behind them changed |
| StrTok.AllTokens | extern/Zycore/LibC.h:473-492 | the calls on the tokenizer itself, with the string and then with null until null, do exactly that to its memory |
| Printing.Cursor.PrintChar | LMalz_Driver/src/errput.cpp:2-5 | one character written at the cursor, which moves by one |
| Printing.Cursor.Prints | LMalz_Driver/src/errput.cpp:11-45 | writes the padded string at the cursor, nothing else, and returns its length |
| Printing.Cursor.PrintParts | LMalz_Driver/src/errput.cpp:28-43 | padding and string in the order that the three loops write them, and the count of all three |
| Printing.FillDigits | LMalz_Driver/src/errput.cpp:67-76 | the backward loop leaves the digits of the number, and its cursor never leaves the 64-byte buffer |
| Printing.BuildNumber | LMalz_Driver/src/errput.cpp:67-87 | the string handed to `prints`: the digits, with the minus sign in front unless it is printed on its own |
| Printing.PutSign | LMalz_Driver/src/errput.cpp:84-86 | the minus sign is stored in front of the digits inside the buffer |
| Printing.PrintSigned | LMalz_Driver/src/errput.cpp:79-89 | the minus sign goes out first, and the zero padding behind it is one shorter |
| Printing.Printi | LMalz_Driver/src/errput.cpp:50-90 | writes the number with sign and padding and returns the length of what is written |
| Numbers.NumberRoundTrip | LMalz_Driver/src/errput.cpp:50-90 | reading the text back gives the number, signed or modulo 2^64, if and only if it was not padded with zeros on the right or is zero |
| Numbers.NumberLength | LMalz_Driver/src/errput.cpp:11-90 | every number takes its width or its natural length, whichever is longer |
| Numbers.NumberShape | LMalz_Driver/src/errput.cpp:78-89 | spaces go outside; zeros go between the sign and the digits, or behind the digits |
| Numbers.DigitsRead | LMalz_Driver/src/errput.cpp:70-76 | the digits have the value of the number and hold no space, sign or terminator |
| Numbers.BodyIsNumeral | LMalz_Driver/src/errput.cpp:67-76 | the digits are the numeral of the absolute value, or of the number modulo 2^64: its value, digits of the base in the letters asked for, no leading zeros |
| Numbers.DigitsFitBuffer | LMalz_Driver/src/errput.cpp:48-76 | at most 20 decimal or 16 hexadecimal digits for every 64-bit number |
| Interpreter.ParseSpec | LMalz_Driver/src/errput.cpp:105-116 | flag, zeros and width are parsed to the specification that stands there |
| Interpreter.PrintField | LMalz_Driver/src/errput.cpp:117-151 | in the buffer then stands what the conversion is to show: a string argument, "(null)" or a character, padded on the side and with the character asked for; the numeral of the number with its sign; or "0x" and 16 capital hexadecimal digits that read back as the pointer modulo 2^64 |
| Interpreter.PrintPointer | LMalz_Driver/src/errput.cpp:138-144 | the prefix and 16 zero-padded digits |
| Format.AsInt | LMalz_Driver/src/errput.cpp:121-137 | an argument read as a signed 32-bit number: in range and congruent modulo 2^32 |
| Interpreter.PrintItem | LMalz_Driver/src/errput.cpp:96-156 | one turn of the loop writes what rendering says and consumes what rendering consumes |
| Interpreter.PrintArgument | LMalz_Driver/src/errput.cpp:117-151 | a known conversion prints the next argument and consumes it |
| Interpreter.PrintSpec | LMalz_Driver/src/errput.cpp:99-151 | a turn at a specification: known conversions print a field, others nothing |
| Interpreter.Print | LMalz_Driver/src/errput.cpp:92-162 | terminates; writes the rendering and a terminator; the return value is the number of characters before the terminator; however the format is written as characters, "%%" and conversions, the buffer then shows these one after another |
| FormatItems.FieldShows | LMalz_Driver/src/errput.cpp:117-151 | every conversion shows what it is to show, for all widths, flags and arguments |
| FormatItems.SpecIs | LMalz_Driver/src/errput.cpp:105-116 | a conversion that is written as an optional "-", zeros, the digits of a width and a character is read as exactly that, the width by its decimal value |
| FormatItems.FormatShows | LMalz_Driver/src/errput.cpp:97-158 | a format of characters, "%%" and conversions renders if and only if there is a suitable argument for every known conversion, and then shows characters and percent signs as they are, each known conversion with the next argument, and nothing for unknown ones |
| FormatItems.EveryFormatIsItems | LMalz_Driver/src/errput.cpp:97-158 | every format that ends neither inside a specification nor with a lone percent sign is such a list |
| FormatProofs.FieldLength | LMalz_Driver/src/errput.cpp:116-151 | a field has length max(width, natural length); a pointer always 18 characters |
| FormatProofs.UnsignedIsReadSigned | LMalz_Driver/src/errput.cpp:121-138 | `%d` reads back as the argument; `%u`, `%x` and `%X` as the argument below 2^31 and as 2^64 - 2^32 more from there on |
| FormatProofs.UnsignedGoesWrong | LMalz_Driver/src/errput.cpp:134-137 | what `%u` prints for 2^31 |
| FormatProofs.RenderingIsCString | LMalz_Driver/src/errput.cpp:92-162 | no rendering contains a terminator |
| FormatProofs.ClosedFormatsCompose | LMalz_Driver/src/errput.cpp:92-162 | rendering a concatenation is rendering the parts, the second with the arguments that the first left |
| FormatProofs.RenderingIsCompositional | LMalz_Driver/src/errput.cpp:96-101 | this holds for every continuation if and only if the format does not end with a lone percent sign |
| FormatProofs.OpenFormatEatsPercent | LMalz_Driver/src/errput.cpp:98-103 | after a lone percent sign a further one is printed as a character |
| ErrPut.ErrString.Set | LMalz_Driver/src/errput.cpp:165-172 | the message is the rendering, terminated, and the counter its length |
| ErrPut.ErrString.Add | LMalz_Driver/src/errput.cpp:173-180 | the rendering is added to the message, and the result points to its end |
| ErrPut.ErrString.Get | LMalz_Driver/src/errput.cpp:181-184 | the C string in the buffer is the message |
| ErrPut.SetThenAddsIsOneRendering | LMalz_Driver/src/errput.cpp:163-180 | a Set and any number of Adds add up to what one call with all formats and all arguments would have printed |
| ErrPut.PerformAll | LMalz_Driver/src/errput.cpp:163-180 | any calls on the message object leave what they add up to; one Set and then Adds leave the rendering of all formats with all arguments |
| Justify.WrapJustify | extern/ia32-doc/ia32doc/text.py:49-113 | equals the specification of a justified line; divides by zero exactly for an empty text at width zero |
| Justify.StretchLine | extern/ia32-doc/ia32doc/text.py:53-113 | a line of several words is rebuilt from its indent, words and the spaces left over |
| Justify.JustifyWords | extern/ia32-doc/ia32doc/text.py:81-113 | the word loop rebuilds the line with every gap at its quota |
| Justify.PlaceWord | extern/ia32-doc/ia32doc/text.py:84-106 | one turn adds the word and exactly the gap that brings the spaces up to the next quota |
| Justify.FillGap | extern/ia32-doc/ia32doc/text.py:99-102 | the space loop terminates and stops at the least sum whose average reaches the desired one |
| Justify.LoopStopsAtQuota | extern/ia32-doc/ia32doc/text.py:99-102 | where it stops is the rounded-up share of the first k gaps |
| JustifyProofs.JustifyIsExact | extern/ia32-doc/ia32doc/text.py:49-113 | a rewritten line has length `width` if and only if only an indent surrounds its words and it is no single-word bullet item that is too short; it is never longer |
| JustifyProofs.RebuiltLength | extern/ia32-doc/ia32doc/text.py:79-113 | the length of a rebuilt line for any indent, words and number of spaces |
| JustifyProofs.RebuiltIsWoven | extern/ia32-doc/ia32doc/text.py:79-111 | a rebuilt line is its words with fair gaps, for any indent, words and number of spaces |
| JustifyProofs.JustifiedLength | extern/ia32-doc/ia32doc/text.py:59-113 | the exact length of every rewritten line |
| JustifyProofs.GapsAreFair | extern/ia32-doc/ia32doc/text.py:79-111 | the line is its indent and words with gaps, none of them empty, whose first k hold ceil(k*W/n) spaces (from k = 2 on behind a bullet); without a bullet no two differ by more than one; behind a bullet the first is 1, the second ceil(2W/n) - 1, the others differ by at most one, and all behind the first do so if and only if n = 2, 2W <= 3n or W = 2n |
| GapProofs.EvenGaps | extern/ia32-doc/ia32doc/text.py:79-106 | sums and differences of the gaps without a bullet |
| GapProofs.GapsAfterBullet | extern/ia32-doc/ia32doc/text.py:87-106 | sums and differences of the gaps behind a bullet |
| GapProofs.LevelBehindBullet | extern/ia32-doc/ia32doc/text.py:87-106 | the exact numbers of spaces for which the gaps behind the bullet differ by at most one |
| GapProofs.BulletGapsAreUneven | extern/ia32-doc/ia32doc/text.py:87-106 | 23 spaces for three gaps: 1, 15 and 7 |
| JustifyProofs.BulletLineIsUneven | extern/ia32-doc/ia32doc/text.py:87-106 | a family of 80-character lines that width 100 stretches with these gaps |
| JustifyProofs.BulletItemKeepsItsLength | extern/ia32-doc/ia32doc/text.py:87-93 | a "-" or "*" bullet with one word keeps its length at every width |
| JustifyProofs.JustifyIsNotAlwaysExact | extern/ia32-doc/ia32doc/text.py:87-93 | a concrete line that is not stretched to its width |
| JustifyProofs.JustifyKeepsWords | extern/ia32-doc/ia32doc/text.py:49-113 | the words of every line stay the same |
| JustifyProofs.JustifiedEnd | extern/ia32-doc/ia32doc/text.py:128-138 | a justified line has nothing to strip on the right |
| PyString.JoinSplit | extern/ia32-doc/ia32doc/text.py:62 | joining with single spaces undoes splitting, and no piece holds a space |
| PyString.SplitJoin | extern/ia32-doc/ia32doc/text.py:62 | and splitting undoes joining pieces without spaces |
| PyString.StripIs | extern/ia32-doc/ia32doc/text.py:36 | stripping takes whitespace from both ends and nothing else |
| TextParagraphs.ToParagraphs | extern/ia32-doc/ia32doc/text.py:29-46 | the paragraphs of the text: one for every block of lines between its empty lines |
| TextParagraphs.ParagraphsAreBlocks | extern/ia32-doc/ia32doc/text.py:33-44 | every empty line ends exactly one paragraph, the rest makes one more if it has text, and a paragraph is its first line with text stripped on the right and joined with the other lines, stripped, by single spaces |
| TextParagraphs.ParagraphsOfText | extern/ia32-doc/ia32doc/text.py:29-46 | the lines of every text are such blocks, and there are as many paragraphs as empty lines, and one more if the last block has text; an empty text makes one empty paragraph |
| TextParagraphs.SplitLinesAt | extern/ia32-doc/ia32doc/text.py:33 | a line end, "\r\n" counting as one, splits off the line in front of it |
| TextParagraphs.SplitLinesReads | extern/ia32-doc/ia32doc/text.py:33 | lines that are written with line ends are read back |
| TextParagraphs.TwoParagraphs | extern/ia32-doc/ia32doc/text.py:33-46 | two lines with an empty line between them are two paragraphs |
| Wrap.WrapWords | extern/ia32-doc/ia32doc/text.py:121-139 | the word loop computes the greedy lines, each finished on its own; a division by zero is reported exactly when a line to justify is empty at width zero |
| Wrap.EmitLine | extern/ia32-doc/ia32doc/text.py:128-130 | stripping, justifying and stripping again is finishing the stripped line |
| Wrap.WrapParagraph | extern/ia32-doc/ia32doc/text.py:116-139 | the lines of a paragraph |
| Wrap.WrapText | extern/ia32-doc/ia32doc/text.py:153-160 | the lines of all paragraphs in order, or the first exception |
| Wrap.WrapAll | extern/ia32-doc/ia32doc/text.py:154-160 | the paragraph loop, for any list of paragraphs |
| WrapProofs.WrapKeepsWords | extern/ia32-doc/ia32doc/text.py:153-160 | the output holds the words of the text in order, plus the first piece of each paragraph whose indent and first piece are too wide; exactly the text's words if and only if all first pieces fit; justified or not |
| WrapProofs.ParagraphKeepsWords | extern/ia32-doc/ia32doc/text.py:116-139 | the words of a paragraph's lines are its words, plus its first piece when that is too wide; justified or not |
| WrapProofs.FreshLinesKeepWords | extern/ia32-doc/ia32doc/text.py:121-138 | the word loop conserves any list of pieces in the same sense |
| WrapProofs.RawLinesKeepWords | extern/ia32-doc/ia32doc/text.py:122-138 | the same for one paragraph |
| WrapProofs.ParagraphsOfKeepsWords | extern/ia32-doc/ia32doc/text.py:29-46 | splitting into paragraphs loses no word |
| WrapProofs.WrapKeepsBorders | extern/ia32-doc/ia32doc/text.py:153-160 | the output is a stretch of lines, at least one, for every paragraph, with the words of that paragraph |
| WrapProofs.WrapKeepsBlocks | extern/ia32-doc/ia32doc/text.py:153-160 | for a text: every block between its empty lines becomes a stretch of lines of its own |
| WrapProofs.PlainLines | extern/ia32-doc/ia32doc/text.py:116-139 | a paragraph with text becomes, without justification, its pieces in greedy lines, each behind the indent and stripped on the right; a first piece too wide comes twice |
| WrapProofs.BlankParagraphIsOneLine | extern/ia32-doc/ia32doc/text.py:116-139 | a paragraph without text becomes one empty line |
| WrapProofs.GreedyStaysAhead | extern/ia32-doc/ia32doc/text.py:123-133 | a split that is not ahead of the greedy line needs at least as many further lines |
| WrapProofs.FreshLinesAreFewest | extern/ia32-doc/ia32doc/text.py:122-139 | no order-preserving split into fitting lines has fewer lines |
| WrapProofs.WrapIsOptimal | extern/ia32-doc/ia32doc/text.py:116-139 | a paragraph that can be split into fitting lines is wrapped into fitting lines, as few as possible, justified or not |
| WrapProofs.RawLinesAreASplit | extern/ia32-doc/ia32doc/text.py:122-138 | the greedy lines are themselves such a split |
| WrapProofs.LinesFitExactlyIfWordsFit | extern/ia32-doc/ia32doc/text.py:123-133 | for single-space-separated words all lines fit if and only if all words fit behind the indent |
| WrapEdges.DividesExactlyOnBlankPieces | extern/ia32-doc/ia32doc/text.py:116-139 | `wrap_paragraph` divides by zero if and only if it justifies at width zero and the text is whitespace after a space, or has a blank piece |
| WrapEdges.JustifiedLinesAreFull | extern/ia32-doc/ia32doc/text.py:116-139 | every line of a justified paragraph of single-spaced words that fit has exactly the width, or is shorter than 0.8 of it, has no gap, or is a bullet with one word, and then keeps its length |
| WrapEdges.JustifiesLineByLine | extern/ia32-doc/ia32doc/text.py:128-139 | with justification every line of the unjustified paragraph is justified on its own; no line is added, dropped or broken elsewhere |
| WrapEdges.RewritesExactly | extern/ia32-doc/ia32doc/text.py:50-68 | a line is left alone if and only if it is longer than the width, shorter than the threshold times the width, or has no space between its ends |
| Bitfield.Bit | extern/ia32-doc/ia32doc/doc.py:409-421 | the half-open range holds exactly the bits that the document names: one bit, or first to last with both ends, where the `MAXPHYADDR` form ends at bit 47 |
| Bitfield.CProcessor.ProcessBitfieldField | extern/ia32-doc/ia32doc/processors/c_processor.py:350-436 | the lines after one field with the definitions nested in it, the position behind the last bit that the document names, and exactly when an exception is raised instead |
| Bitfield.CProcessor.PrintMember | extern/ia32-doc/ia32doc/processors/c_processor.py:353-381 | the gap member, if any, and the field's member |
| Bitfield.CProcessor.PrintMacros | extern/ia32-doc/ia32doc/processors/c_processor.py:386-436 | the macros of a named bit-field, the new position, and the nested definitions |
| Bitfield.CProcessor.PrintDefines | extern/ia32-doc/ia32doc/processors/c_processor.py:409-432 | the macros that the options ask for, in order |
| Bitfield.CProcessor.PrintNested | extern/ia32-doc/ia32doc/processors/c_processor.py:436 | the nested definitions in order |
| Bitfield.CProcessor.ProcessFields | extern/ia32-doc/ia32doc/processors/c_processor.py:294-298 | the field loop, with the position at the end of the last range |
| Bitfield.CProcessor.ProcessBitfield | extern/ia32-doc/ia32doc/processors/c_processor.py:243-348 | all lines of a document, the `Flags` member included, behind the earlier output; the state is reset; exactly when an exception is raised, a bit-field at the root without a name included |
| BitfieldProofs.PositionIsTotal | extern/ia32-doc/ia32doc/processors/c_processor.py:353-381 | after every field the widths add up to the position; the named members are the ranges asked for, from the first bit written to the last one, if and only if the ranges come in order |
| BitfieldProofs.AfterFieldLayout | extern/ia32-doc/ia32doc/processors/c_processor.py:353-434 | one field adds one named member, from its first bit or the position reached, up to its end |
| BitfieldProofs.TrailingFill | extern/ia32-doc/ia32doc/processors/c_processor.py:300-311 | with trailing fill the widths add up to the size of the word |
| BitfieldProofs.DocumentAppends | extern/ia32-doc/ia32doc/processors/c_processor.py:243-348 | what a document prints does not depend on what was printed before |
| BitfieldProofs.BitfieldRoundTrip | extern/ia32-doc/ia32doc/processors/c_processor.py:289-381 | with every member directly behind the one before, every word is the sum of its members, named and reserved, each times two to its offset |
| BitfieldStorage.PackedIsLayout | extern/ia32-doc/ia32doc/processors/c_processor.py:353-381 | packed into storage units every member directly follows the one before if and only if none crosses the border of a unit |
| BitfieldStorage.CompiledRoundTrip | extern/ia32-doc/ia32doc/processors/c_processor.py:289-323 | for sizes that the declared type holds, packing leaves no holes, every word is put together again, and `Flags` holds it |
| BitfieldStorage.FlagsHoldsWord | extern/ia32-doc/ia32doc/processors/c_processor.py:318-323 | the `Flags` line is there and is wide enough exactly for 8, 16, 32 and 64 bits |
| BitfieldStorage.BytesCannotHoldWideFields | extern/ia32-doc/ia32doc/processors/c_processor.py:633-645 | a 24-bit word with a field that crosses its declared type |
| BitfieldProofs.LayoutHoldsLowBits | extern/ia32-doc/ia32doc/processors/c_processor.py:353-381 | the members of any struct hold exactly the low bits that their widths add up to |
| BitfieldProofs.MacrosMatchLayout | extern/ia32-doc/ia32doc/processors/c_processor.py:414-432 | every field is a member at its place, and BIT, FLAG, MASK and GET describe exactly that member |
| BitfieldProofs.FieldIsPlaced | extern/ia32-doc/ia32doc/processors/c_processor.py:353-381 | every field of ordered ranges is a member where it was asked for |
| BitfieldProofs.MacrosArePrinted | extern/ia32-doc/ia32doc/processors/c_processor.py:414-432 | its macros are among the lines and describe its range, whatever the other fields are |
| BitfieldProofs.GetReadsMember | extern/ia32-doc/ia32doc/processors/c_processor.py:426-432 | GET computes the value of the member |
| BitfieldLines.MacroLines | extern/ia32-doc/ia32doc/processors/c_processor.py:386-434 | beside its members a document prints exactly the macros asked for of every field, with the numbers of the bits written, then its nested definitions, and in the end `Flags`; without the struct form no members |
| BitfieldLines.FlagNamesBits | extern/ia32-doc/ia32doc/processors/c_processor.py:418-420 | a flag has exactly the bits that the document names |
| BitfieldLines.GetMovesBits | extern/ia32-doc/ia32doc/processors/c_processor.py:426-432 | GET moves exactly the bits that the document names down to bit 0 |
| BitfieldLines.ReservedMembers | extern/ia32-doc/ia32doc/processors/c_processor.py:300-311 | reserved members are numbered from one in order, none is empty, and each takes a whole gap |
| BitfieldProofs.FlagsPartitionWord | extern/ia32-doc/ia32doc/processors/c_processor.py:418-420 | the flags of all members are disjoint and add up to 2^size - 1 |
| BitfieldProofs.FlagsAddUp | extern/ia32-doc/ia32doc/processors/c_processor.py:418-420 | the flags of any layout add up to the mask of its total width |
| BitfieldProofs.FlagsAreDisjoint | extern/ia32-doc/ia32doc/processors/c_processor.py:418-420 | the flags of two members have no bit in common |
| BitfieldProofs.TypeHasSize | extern/ia32-doc/ia32doc/processors/c_processor.py:633-645 | a type exists exactly for whole bytes and has that size; without its suffix only for 8, 16, 32 and 64 bits |
| Bits.AndMask | extern/ia32-doc/ia32doc/processors/c_processor.py:430-431 | masking is taking the remainder |
| Bits.AndBits | extern/ia32-doc/ia32doc/processors/c_processor.py:430-431 | the bitwise and works on every bit |
| Bits.SplitLowBits | extern/ia32-doc/ia32doc/processors/c_processor.py:430-431 | the low m + n bits are the low m bits and the next n bits |
| DocSize.DocStore.Size | extern/ia32-doc/ia32doc/doc.py:379-391 | a number is read as it is and nothing changes; a struct without one reads -1; a resolved "?" must stand last and is stored; and every exception |
| DocSize.DocStore.Process | extern/ia32-doc/ia32doc/processors/c_processor.py:438-490 | visiting a tree of structs resolves its fields in order and stops at the first size without a type |
| DocSizeProofs.ResolvedSizesAddUp | extern/ia32-doc/ia32doc/doc.py:379-391 | a "?" reads what the numbers of its siblings, fields, bit-fields and structs alike, leave of the declared number, so that the numbers of all fields add up to it; reading again gives the same and changes nothing |
| DocSizeProofs.ResolvedSizeFits | extern/ia32-doc/ia32doc/doc.py:384-385 | the resolved size is not negative exactly when the siblings fit |
| DocSizeProofs.SharedFieldFitsBoth | extern/ia32-doc/ia32doc/doc.py:43-58 | with a shared dictionary the second struct adds up if and only if both leave the same rest |
| DocSizeProofs.TreeSettles | extern/ia32-doc/ia32doc/doc.py:379-391 | from any field on, a visit succeeds if and only if all numbers to be declared are multiples of eight, and then the numbers add up at every level of the tree and no other entry is touched |
| DocSizeProofs.LastFieldSettles | extern/ia32-doc/ia32doc/doc.py:379-391 | resolving the last field settles its struct |
| DocSizeProofs.SettledStays | extern/ia32-doc/ia32doc/doc.py:379-391 | visiting a settled tree changes nothing |
| DocSizeProofs.VisitSettlesTree | extern/ia32-doc/ia32doc/doc.py:379-391 | one visit of a whole tree settles it, or meets a size that is no whole number of bytes; a second visit reads the same numbers |

## Left out

- ZyanNumber.AppendU: the unsigned appenders are only declared in the repository, so their documented contract stands in for them; a failure changes nothing there, which the documentation does not promise.
- ZyanNumber.AppendS: `ZydisStringAppendDecS` and `ZydisStringAppendHexS` differ only in the radix and its options, so one method models both.
- Justify.FillGap: averages are compared as exact rationals; Python compares floating-point quotients.
- Interpreter.Print: the arguments are a sequence of words and strings, and a missing or ill-typed argument or a format that ends inside a specification is a precondition; the raw pointer walk over the variable arguments is not modelled, nor a string argument that lies in the message buffer, nor an `int` overflow of a parsed width.
- ErrPut.ErrString.Set: the rendering must fit the 256 bytes, as nothing in the code checks it.
- StrTok.Tokenizer.StrTok: the delimiters and all read-only strings lie outside the memory that is written.
- LibC.MemMove: source and destination lie in one block, so that every overlap is covered and two separate blocks are the disjoint case.
- Numbers.NumberRoundTrip: negating the smallest 64-bit number wraps around, as compilers do in practice; C leaves it undefined.
- Bitfield.CProcessor.ProcessBitfield: the lines of the union and the struct around the members, the names, comments and alignment of the printed text are not modelled; a size is a number.
- Bitfield.CProcessor.ProcessBitfieldField: of the documents nested in a field only definitions are modelled, not enums, groups, structs or bit-fields.
- BitfieldProofs.BitfieldRoundTrip: says nothing about compilers; `CompiledRoundTrip` does, for those that pack members from the lowest bit into units of the declared type.
- DocSize.DocStore.Process: of what `process_struct` does, the reading of sizes and the choice of their types in field order is modelled; the printing, the documents nested in a field, and what a bit-field itself may raise beyond its size are not.
- The text of bit ranges and YAML documents: a range is given by its numbers or by the `MAXPHYADDR` form.
- `str.splitlines`, `str.split` and the strip functions are modelled as functions on strings of code points.
- The other functions of `LibC.h` (`memchr`, `memset`, `strcat`, `strcmp`, `strcpy`, `strncat`, `strncmp`, `strncpy`, `strrchr`, `strxfrm`, `strcoll`): single loops that would only add easy members, or stubs.
- `ZydisFormatterBufferAppend`, `Remember`, `Restore`, the initialisation of a buffer and the token getters: only declarations are visible; the walk along `next` is modelled from the documentation.
- The Zydis decoder and encoder, Zycore containers, the disk tools, the generated headers and the copies of the print engine in `hverrput.cpp` and `test.cpp`.
- The letter-case converters of `text.py` and the C name mangling: pure string plumbing.
