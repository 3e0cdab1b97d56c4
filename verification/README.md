# wasm-sys: the memory walker and `printf` in Dafny

wasm-sys runs C code compiled to WebAssembly and supplies, in TypeScript,
the system calls that code makes. This project models two parts of it and
proves properties of the model:

- **`MemoryWalker`** is a cursor over the WebAssembly memory. It is an offset
  into a shared `ArrayBuffer`. It reads fixed-width integers in either byte
  order, reads 64-bit integers exactly as BigInts, follows 32-bit pointers,
  scans NUL-terminated strings, takes slices, and writes 32-bit words and byte
  runs.
- **`formatFromVarargs`** is the host side of C's `printf`. It is given a
  walker on a pointer to the format string, followed by the variadic
  arguments. Every conversion specifier found by the specifier regular
  expression is handled as follows:
  - a flag, width or precision throws "Unsupported format specifier";
  - otherwise the length modifier and the conversion are looked up in a
    first-match table of seven parsers;
  - a pair with no parser throws "Invalid format specifier";
  - otherwise the argument is read with the parser's walker read and rendered
    with the conversion's formatter.

## How the model is built

**Memory and cursors.**
- Memory is an immutable `seq<byte>`. A cursor is just an `int` offset.
- Every walker operation is a pure function of the buffer and the offset. It
  returns `Step<T>`:
  - `Ok(value, next)`;
  - or `OutOfBounds(next)`, standing for the `RangeError` a `DataView` or
    typed array throws. It carries the offset the walker is left at, which
    differs between reads that move before they read (`readUInt8`,
    `readBoolean`, `readSliceView`) and those that move after (all the others).
- Writes return the new buffer, which every cursor then sees.
- `jumpTo`, `forkAndJump` and `skip` are `JumpTo`, `ForkAndJump` and `Skip`:
  - offsets are never checked when they are set;
  - `readAndDereferencePointer` forks a cursor at the pointer it reads.

**Text.**
- JavaScript strings are `seq<CodeUnit>` (UTF-16 code units). `String.fromCharCode`
  can produce a lone surrogate, which a Dafny `char` cannot hold.
- `Number.prototype.toString(radix)` and `BigInt.prototype.toString(radix)` on
  integers are `IntToText`. It is proved to write the one canonical numeral of
  the value (`NumeralRoundTrip`).

**The specifier regular expression.**
- It is a direct scanner, `MatchAt`: the longest flag, width and precision
  runs, then the length alternatives in the pattern's order (`hh|h|l|ll|L|z|j|t|I|I32|I64|q`).
- A length alternative is kept only when a conversion character follows it,
  as the backtracking matcher does.
- `PatternAt` states the pattern as a relation on positions, and the scanner
  is proved sound (`MatchAtSound`) and complete (`MatchAtComplete`) for it.
- Whether a match has a flag, width or precision is the same for every way of
  splitting it. Every such match is rejected whole, so the backtracking order
  among those three groups never changes the outcome.

**The global `replace`.**
- It is `Tokenize` (leftmost, non-overlapping matches, with literals between
  them) followed by `Interpret`, which runs a replacer callback over the
  tokens.
- The callback is `Printf.Apply` on the buffer. An exception (`Threw`) ends
  the call with the offset the walker is at.

**Foreign code.** It is a parameter, `Printf.Host`:
- `decodeUtf8` from the `extlib` library;
- the floating-point formatters, given the conversion and the IEEE-754 bits
  of the double.

The general results hold whatever these functions return.
`PrintfExamples.HelloFromVarargs` is the one exception. It decodes its format
string, and it assumes that `decodeUtf8` maps those ASCII bytes to the same
code units. The other examples start from the decoded text.

## Model

| member | source | states |
|---|---|---|
| MemoryWalker.ReadUInt8 | src/MemoryWalker.ts:44-46 | the byte at the offset; the offset moves by one whether or not the offset lies in the buffer, and the read fails exactly when it does not |
| MemoryWalker.ReadBoolean | src/MemoryWalker.ts:40-42 | true exactly when the byte is non-zero; moves by one even when it fails, like `readUInt8` |
| MemoryWalker.ReadUInt32LE | src/MemoryWalker.ts:60-64 | fails exactly when the four bytes are not all in the buffer, leaving the offset alone; otherwise `b0 + 2^8 b1 + 2^16 b2 + 2^24 b3` and the offset moves by 4 |
| MemoryWalker.ReadUInt32BE | src/MemoryWalker.ts:66-70 | the same four bytes in the reverse order of significance, with the same bounds and movement |
| MemoryWalker.ReadInt32LE | src/MemoryWalker.ts:48-52 | a value in [-2^31, 2^31) congruent modulo 2^32 to what `readUInt32LE` reads, with the same bounds and movement |
| MemoryWalker.ReadInt32BE | src/MemoryWalker.ts:54-58 | a value in [-2^31, 2^31) congruent modulo 2^32 to what `readUInt32BE` reads, with the same bounds and movement |
| MemoryWalker.ReadUInt64LE | src/MemoryWalker.ts:78-82 | fails exactly when eight bytes are not all in the buffer, leaving the offset alone; otherwise a value below 2^64 whose little-endian encoding is those eight bytes (the low word plus 2^32 times the high word), and the offset moves by 8 |
| MemoryWalker.ReadInt64LE | src/MemoryWalker.ts:72-76 | a value in [-2^63, 2^63) congruent modulo 2^64 to what `readUInt64LE` reads, with the same bounds and movement |
| MemoryWalker.ReadDoubleLE | src/MemoryWalker.ts:84-88 | consumes the same eight bytes as `readUInt64LE`, with the same bounds and movement |
| MemoryWalker.DecodeEncode | src/MemoryWalker.ts:60-82 | a little-endian decode loses nothing: n bytes are worth less than 256^n and encode back to the same bytes |
| MemoryWalker.ReadAndDereferencePointer | src/MemoryWalker.ts:26-28 | the new cursor sits at the little-endian 32-bit pointer at the offset, and this cursor moves past the pointer by exactly 4; fails, unmoved, when the pointer is not in the buffer |
| MemoryWalker.ReadSliceView | src/MemoryWalker.ts:30-34 | the `len` bytes from the offset, element by element; the offset moves by `len` even when the view cannot be built |
| MemoryWalker.ReadSliceCopy | src/MemoryWalker.ts:36-38 | never fails; the offset moves by `len`; the copy is exactly the bytes in between when they lie in the buffer, and empty when `len` is not positive and the new offset is not negative |
| MemoryWalker.ReadNullTerminatedString | src/MemoryWalker.ts:90-98 | never fails; the bytes are a zero-free piece of the buffer from the offset that ends at a zero byte or at the buffer end, and the offset ends one past them |
| MemoryWalker.NullTerminatedAt | src/MemoryWalker.ts:90-98 | the bytes read are exactly those up to the first zero byte after the offset, or up to the buffer end when none follows, and the offset ends one past them |
| MemoryWalker.WriteUInt32LE | src/MemoryWalker.ts:100-104 | fails unmoved when the word does not fit; otherwise changes no byte outside the four written, moves by 4, and reading the word back gives the value modulo 2^32 |
| MemoryWalker.WriteJumpReadBack | src/MemoryWalker.ts:12-15 | writing a word, jumping back to where it was written and reading again gives the value modulo 2^32 |
| MemoryWalker.JumpTo | src/MemoryWalker.ts:12-15 | a bare offset update: the cursor is at `ptr`, unchecked; `WriteJumpReadBack` uses it to read a write back |
| MemoryWalker.ForkAndJump | src/MemoryWalker.ts:17-19 | a bare pair of offsets: a second cursor at `ptr`, unchecked, with this cursor unmoved; `readAndDereferencePointer` forks with it |
| MemoryWalker.Skip | src/MemoryWalker.ts:21-24 | a bare offset update: the cursor moves by `bytes`, unchecked |
| MemoryWalker.SkipLikeRead | src/MemoryWalker.ts:21-82 | skipping n bytes leaves the cursor where reading them leaves it: a slice copy or view of n bytes, or a 4- or 8-byte read that succeeds |
| MemoryWalker.WriteAll | src/MemoryWalker.ts:106-110 | fails unmoved when `src` does not fit; otherwise changes no byte outside the run written, moves by `src.length`, and `readSliceCopy` of that length at the same offset gives `src` back |
| WalkerExamples.PromotedChar | src/MemoryWalker.test.ts:111-112 | the first variadic `char` of the layout test reads back as 0x19 |
| WalkerExamples.PromotedShort | src/MemoryWalker.test.ts:113-114 | the sign-extended `short` 0xf3f3 reads back as -3085 |
| WalkerExamples.StringPointer | src/MemoryWalker.test.ts:119-120 | the string argument points to 1024 and the cursor moves past it |
| WalkerExamples.AlignedQuad | src/MemoryWalker.test.ts:123-124 | the 64-bit argument past the padding reads 0xDEADBEEFDEADBEEF |
| WalkerExamples.SkippedPadding | src/MemoryWalker.test.ts:119-124 | after the pointer, skipping the four bytes of padding puts the cursor on the 64-bit argument, which reads 0xDEADBEEFDEADBEEF |
| WalkerExamples.UnalignedQuad | src/MemoryWalker.test.ts:119-124 | read right after the pointer, with no skip over the alignment padding, the 64-bit argument comes out as 0xDEADBEEF00000000 |
| WalkerExamples.QuadPastEnd | src/MemoryWalker.test.ts:110-125 | eight bytes that run past the area fail and leave the cursor where it was |
| WalkerExamples.TerminatedString | src/MemoryWalker.test.ts:53 | "chars: 10" and its terminator read back as the nine characters, with the cursor past the zero |
| WalkerExamples.UnterminatedString | src/MemoryWalker.ts:90-98 | without a terminator the scan stops at the buffer end and the cursor ends one past it; past the end it reads nothing |
| Numerals.IntToText | src/printf.ts:43-45 | the text is a numeral of the radix with no prefix or leading zero, never "-0", worth the number, with a minus sign exactly for negative numbers |
| Numerals.NumeralRoundTrip | src/printf.ts:43-45 | every such numeral is the text `toString(radix)` writes for its value, so the rendering is the only text of that value |
| Numerals.UpperCaseNumeral | src/printf.ts:63 | upper-casing a lower-case numeral gives an upper-case numeral of the same value and sign |
| Numerals.FromCharCode | src/printf.ts:66 | one code unit, congruent to the argument modulo 2^16 |
| SpecifierTable.EntriesDisjoint | src/printf.ts:3-39 | no two parsers accept the same pair of length modifier and conversion |
| SpecifierTable.Lookup | src/printf.ts:84-86 | a parser is found exactly when some entry's length set has the modifier and its type set the conversion, and it is the decoder of every entry that does |
| SpecifierTable.LookupIsPromotion | src/printf.ts:8-38 | the table is default argument promotion on the 32-bit target: narrow integers and `l` are read as 32 bits, `ll` and `j` as 64, `c` as an `int`, floating conversions with "" or `L` as a double, everything else has no parser; in particular `%s` and `%%` never resolve |
| SpecifierTable.MicrosoftAndQuadModifiersInvalid | src/printf.ts:8-38 | no parser accepts `I`, `I32`, `I64` or `q`, whatever the conversion |
| SpecifierGrammar.Modifier | src/printf.ts:77 | a chosen length modifier is followed by a conversion character; `ModifierChoice` and `ChosenModifier` say which one is chosen |
| SpecifierGrammar.FitsUnique | src/printf.ts:77 | at most one length modifier is followed by a conversion character, so the order of the alternatives never changes where a match ends |
| SpecifierGrammar.ModifierChoice | src/printf.ts:77 | the chosen length modifier is spelled and followed by a conversion; the omitted one is chosen only when no alternative fits; when nothing is chosen nothing fits |
| SpecifierGrammar.ChosenModifier | src/printf.ts:77 | a nonempty modifier is chosen exactly when it fits and no alternative tried before it fits |
| SpecifierGrammar.DefaultModifier | src/printf.ts:77-78 | a conversion directly after the precision gives the omitted modifier, which the callback reads as "" |
| SpecifierGrammar.NoModifierAtEnd | src/printf.ts:77 | nothing is chosen at the end of the text, where no conversion can follow |
| SpecifierGrammar.CutAt | src/printf.ts:77 | a cut puts the flags from just after the "%", then the width and the precision, in order, and a conversion character right after the modifier; `CutAtSound` and `CutAtComplete` tie it to the pattern |
| SpecifierGrammar.MatchAt | src/printf.ts:77 | a match starts with its "%" and is at least two units long; `MatchAtSpan` places it in the text, and `MatchAtSound` and `MatchAtComplete` tie it to the pattern, through the conversion character |
| SpecifierGrammar.MatchAtSpan | src/printf.ts:77 | a match is the piece of the text from the "%" on, at least two units long |
| SpecifierGrammar.CutAtSound | src/printf.ts:77 | where the scanner cuts, the pattern matches with exactly those flag, width, precision and modifier parts |
| SpecifierGrammar.MatchAtSound | src/printf.ts:77 | every match the scanner finds is a match of the pattern, split where the scanner cuts it |
| SpecifierGrammar.CutAtComplete | src/printf.ts:77 | wherever the pattern matches, the scanner cuts a match whose width and precision end where that match's do, and whose conversion character is that match's |
| SpecifierGrammar.MatchAtComplete | src/printf.ts:77 | wherever the pattern matches the scanner finds a match that ends at the same conversion character, and it has no flag, width or precision exactly when that match has none |
| SpecifierGrammar.NoMatchWithoutPercent | src/printf.ts:77 | no match starts anywhere but at a "%" |
| SpecifierGrammar.PercentFreeNoMatch | src/printf.ts:77 | no match starts in a stretch without "%" |
| SpecifierGrammar.BareMatch | src/printf.ts:77-78 | a "%", a modifier and a conversion, with nothing between, match bare with that modifier |
| SpecifierGrammar.PlainConversion | src/printf.ts:77-78 | a "%" directly followed by a conversion character is a bare two-unit specifier with the omitted modifier |
| Tokens.Scan | src/printf.ts:76-77 | the scanner's verdict at every position, each match being the piece of text it covers |
| Tokens.Tokenize | src/printf.ts:76-77 | at most one token per code unit, and a directive only where the scanner found a match |
| Tokens.TokenizeJoins | src/printf.ts:76-94 | the tokens join back into the text: nothing outside the matches is lost, repeated or changed |
| Tokens.TokenizeLeftmost | src/printf.ts:76-77 | each token sits where the text of the tokens before it ends and is what the scanner finds there, so matches are taken leftmost first and never overlap |
| Tokens.TokenizeSkipsPlainText | src/printf.ts:76-77 | where no match starts, every code unit is a literal |
| Tokens.TokenizeFirstMatch | src/printf.ts:76-77 | text up to the first match is literals, then that match, then the tokens after it |
| Tokens.TokenizeNoMatch | src/printf.ts:76-77 | text without a match is all literals |
| Substitution.Interpret | src/printf.ts:76-94 | only a match can throw: a run of tokens whose replacement throws holds a directive |
| Substitution.InterpretAppend | src/printf.ts:76-94 | replacing two runs of tokens one after the other is replacing them joined; an exception in the first stops everything |
| Substitution.FirstFailureWins | src/printf.ts:76-94 | the first replacement that throws is the outcome of the whole call, whatever follows |
| Substitution.InterpretLiterals | src/printf.ts:76-94 | literal text is copied and reads nothing |
| Substitution.OnlyMatch | src/printf.ts:76-94 | with one match, the text around it is copied and its replacement put between |
| Substitution.FirstMatchThrows | src/printf.ts:76-94 | when the first match throws, that exception is the outcome |
| Substitution.NoMatchCopied | src/printf.ts:76-94 | text without matches is copied and reads nothing |
| Printf.Format | src/printf.ts:76-94 | a format string in which nothing matches never throws; `UnmatchedCopied` adds that it is copied as it is |
| Printf.Parse | src/printf.ts:8-38 | each parser reads exactly its width (4 or 8 bytes, none for `%`), fails unmoved when that is not in the buffer, and gives an integer, a double or a string according to its entry |
| Printf.Render | src/printf.ts:41-70 | integer formatters write the canonical numeral of the value in radix 10, 16 (upper case for `X`) or 8 with no prefix, with a sign exactly for negative values; `c` writes the one code unit of the value modulo 2^16; `s` writes the string; `%` writes "%" |
| Printf.ParseSuits | src/printf.ts:84-92 | whatever the table resolves a pair to, its parser gives what the conversion's formatter takes |
| Printf.Apply | src/printf.ts:78-93 | a flag, width or precision throws Unsupported with the walker unmoved, before any lookup; otherwise a pair without a parser throws Invalid, unmoved; a replacement that completes is of an accepted specifier and moves the walker by exactly its parser's width; an accepted one that throws throws RangeError |
| Printf.LookupReadsNumber | src/printf.ts:8-38 | every pair the table resolves reads a number, of 4 or 8 bytes |
| Printf.ApplyFits | src/printf.ts:90-92 | an accepted specifier is replaced exactly when its argument lies in the buffer |
| Printf.StringAndPercentInvalid | src/printf.ts:33-38 | `%s` and `%%` throw "Invalid format specifier" and read nothing, whatever their modifier |
| Printf.ApplyWritesUnsigned | src/printf.ts:84-92 | an unsigned conversion writes the little-endian value of its 4 or 8 argument bytes in its radix, and moves past them |
| Printf.ApplyWritesSigned | src/printf.ts:84-92 | `d` and `i` write in decimal the two's-complement reading of their 4 or 8 argument bytes: congruent to the bytes' value and in the signed range |
| Printf.ApplyWritesChar | src/printf.ts:66 | `%c` writes the one code unit made of the low two bytes of its argument and moves past the four bytes |
| Printf.ReplaceDone | src/printf.ts:90-92 | one token is replaced exactly when it is a literal or an accepted specifier whose argument fits, and then the walker moves by its argument's width |
| Printf.InterpretNext | src/printf.ts:76-94 | a call that completes leaves the walker past the arguments of all its specifiers, in order, with no padding between |
| Printf.InterpretDone | src/printf.ts:76-94 | a call completes exactly when every specifier is accepted and its argument lies in the buffer where the arguments before it end |
| Printf.PlainTextCopied | src/printf.ts:76-77 | a format string without "%" is copied and reads nothing |
| Printf.UnmatchedCopied | src/printf.ts:76-77 | a format string in which nothing matches, even with a "%" in it, is copied and reads nothing |
| Printf.FirstSpecifierThrows | src/printf.ts:79-89 | when the first specifier throws, the call throws that and has read nothing, whatever unmatched "%" comes before it |
| Printf.OneSpecifier | src/printf.ts:76-94 | with one specifier, the text around it is copied and its replacement put between, even when that text holds a "%" that starts no match |
| Printf.SpecifierBetween | src/printf.ts:76-94 | text without "%", a specifier that completes, text without "%": the replacement between the two texts |
| Printf.FormatFromVarargs | src/printf.ts:72-75 | throws RangeError, unmoved, when the pointer is not in the buffer; otherwise formats the NUL-terminated string the pointer designates, reading the arguments from right after the pointer |
| PrintfExamples.HelloCharacter | src/printf.test.ts:18 | "Hello%c\n" with '?' writes "Hello?\n" and reads four bytes |
| PrintfExamples.HelloFromVarargs | src/printf.ts:72-75 | the whole call on a pointer to "Hello%c\n" followed by '?' writes "Hello?\n", with the walker past the argument |
| PrintfExamples.OhMyScan | src/printf.ts:77 | in "%lu" the modifier is `l`: neither `hh` nor `h`, tried before it, is spelled |
| PrintfExamples.OhMyUnsigned | src/printf.test.ts:19 | "Oh my %lu\n" with 0xAAAAAAAA writes "Oh my 2863311530\n" |
| PrintfExamples.Customer | src/printf.test.ts:20 | "Hello %dth customer\n" with the short 14 writes "Hello 14th customer\n" |
| PrintfExamples.WorldIsInvalid | src/printf.test.ts:21 | "Hello %s%c\n" throws Invalid for "%s" whatever the arguments, although the test expects "Hello world.\n" |
| PrintfExamples.WidthIsUnsupported | src/printf.ts:80-82 | "%5d" throws Unsupported and reads nothing |
| PrintfExamples.TrailingWidthCopied | src/printf.ts:77 | a trailing "%5" is no specifier: it is copied and nothing is read |

## Notes on the code

The model follows the code where the repository's tests or description say
otherwise:

- `%s` and `%%` always throw "Invalid format specifier". Their entries have
  empty length sets, and an omitted modifier is looked up as "". The test
  at src/printf.test.ts:10 and :21 expects "Hello world.\n", which the code
  cannot produce (`PrintfExamples.WorldIsInvalid`).
- `formatFromVarargs` takes one walker: the pointer to the format string and
  then the arguments. The test passes two walkers.
- `readNullTerminatedString` never throws. With no terminator, indexing past
  the buffer gives `undefined`, which ends the scan at the buffer end.
- No alignment padding is skipped between arguments. The 64-bit argument of
  the layout test sits behind four bytes of padding, and a formatter reading
  straight on would read the padding (`WalkerExamples.UnalignedQuad`).

## Left out

- Floating point. `readDoubleLE` is kept as the 64-bit pattern of the
  double. The `f F e E g G a A` formatters (`toLocaleString`, `toExponential`,
  `toString(16)` on a double) are the host function `renderFloat`, because
  IEEE-754 formatting is not modelled.
- MemoryWalker.ReadDoubleLE: states the bytes consumed and the bit pattern,
  not the double value, because doubles are not modelled.
- Printf.Render: states nothing about what the floating-point conversions
  write, because that text comes from the host function.
- UTF-8 decoding. `decodeUtf8` comes from the external `extlib` library and
  is the host function `decodeUtf8`. The format string and `%s` arguments are
  whatever it returns for the bytes read.
- `readSliceView` returns a live view that aliases the buffer. The model
  returns the bytes seen at the time of the read, because buffers are
  immutable values here.
- JavaScript number semantics of offsets and written values. Offsets,
  lengths and `writeUInt32LE`'s value are integers here. A fractional or NaN
  offset, and `setUint32`'s conversion of a non-integer value, are not
  modelled.
- General regular-expression and `String.prototype.replace` semantics. Only
  the one pattern of `formatFromVarargs` is modelled, as a scanner proved
  sound and complete for it.
- src/_common.test.ts. It spawns the C compiler, writes temporary files and
  instantiates WebAssembly, which is process and file I/O. The two test files
  are used only for their inputs and expected outputs, as concrete examples.
