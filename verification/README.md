# embedjson: a verified model

embedjson is a resumable JSON parser in C that never copies its input. A client zeroes an `embedjson_parser`,
pushes the document in buffers of any size, and makes a final call; values arrive through callbacks, and strings
arrive as slices of the client's own buffers. Inside are two coupled machines: a lexer that reads bytes and can
stop after any of them (`lexer.c`), and a pushdown automaton that reads tokens and keeps its stack in one bit per
level of nesting (`parser.c`).

This project models both machines and their composition, in the form the C code has, and proves what they accept,
what they report and what they keep.

| layer | files |
|---|---|
| bytes, bits and masks; exact decimal arithmetic | `Bits`, `Bytes`, `Decimal` |
| the terminals of JSON, as RFC 8259 gives them | `Terminals` |
| tokens, callbacks, error codes, configuration | `Tokens` |
| the lexer, byte by byte | `Lexer` |
| the pushdown parser, token by token, as shipped and as drawn | `Pushdown` |
| JSON values, their spellings, their callbacks, a consumer of callbacks | `Documents` |
| the token language, viable prefixes, the depth limit | `Language` |
| numbers: language, values, inputs that wrap a register | `Numbers`, `NumberValues`, `NumberInputs` |
| strings: language, decoding, UTF-8 | `Strings`, `StringReading`, `Utf8` |
| the byte language of the lexer | `Layouts` |
| both machines together; whole runs; viable prefixes of bytes | `System`, `ByteLanguage`, `Viable` |
| printers told in raw bytes, whose output comes back: numbers, strings, whole documents | `PrintedNumbers`, `PrintedStrings`, `JsonText` |
| what each error code says: of the parser, of the lexer, of a run | `TokenErrors`, `LexerErrors`, `RunErrors` |
| the exact callbacks, chunk by chunk | `Traces`, `Chunks` |
| the packed stack | `BitStack` |
| the parser object, updated in place, and its client | `EmbedJson`, `Driver` |
| inputs on which the code departs from what one expects | `Departures` |

The imperative part (`EmbedJson.Parser`) is a class with the fields of `embedjson_parser`: an array of bit
vectors for the stack, and methods that loop over the client's array, step back after a number, track
`string_chunk_begin`, test bytes with the masks of the code, and write the lexer back at the end. Each method is
proved against the functions of the other modules, so every theorem about those functions is one about the code's
form. Callbacks are recorded in the ghost field `trace`, which is specified exactly, chunk by chunk
(`Traces.Traced`). `Bytewise(trace)` is that record with every string chunk cut into single bytes: two records are
equal under it exactly when they differ only in where chunks are cut.

The lexer's constants and tables are not what the grammar is made of. Texts are made of the values of `Terminals`,
which are those of RFC 8259, and the printers write digits, escapes and words in numbers alone; that the lexer's
tables agree with both is proved.

## Configuration

The configuration is the default one: `EMBEDJSON_BIGNUM` 0, `EMBEDJSON_VALIDATE_UTF8` 1, `EMBEDJSON_DYNAMIC_STACK`
0, `EMBEDJSON_DEBUG` 0. The width of the integer type (`Config.intMax`, at least eight bits) and the size of the
stack (`Config.stackBytes`) are parameters. The parser starts zeroed, value callbacks return 0, and the error
callback returns non-zero, as in README.md:83-86, so that the first error ends a run.

The code reads its table of powers of ten without testing the index, and a fraction of more than 323 digits makes it
read past the end. C leaves undefined what it finds there. In the model it finds some number, `Config.beyond`, about
which nothing is assumed: every theorem holds for every such function.

## Where the code departs from its documentation

The model follows the code. For each departure the exact condition is proved, by the member named last, and
`Departures` has an input.

- parser.c:294-295: after a member whose value is an empty array the code goes to the key state;
  doc/syntax-parser-fsm.dot:58 has the comma state. So `{"a":[],"b":null}` is refused and `{"a":[] "b":null}`
  accepted. `Pushdown.Rules` has both machines (`Language.ShippedAcceptsStandardSpelling`).
- parser.c:77: the stack limit passes through an unsigned char, so README.md:40 holds of up to 31 bytes of stack
  (`ByteLanguage.DocumentedLimit`).
- lexer.c:280: after F0 the mask lets through 90..9F and B0..BF only, where the comment at lexer.c:275 has 90..BF.
  The characters U+20000 to U+2FFFF are refused (`Utf8.UnitsAmongUtf8`, `Utf8.Utf8Bodies`).
- lexer.c:310-356: stray continuation bytes, leads C0 and C1, F5..F7 and encoded surrogates are accepted; of the
  units the lexer takes these and no others are not UTF-8 (`Utf8.UnitsBesidesUtf8`, `Utf8.BodyWellFormed`).
- lexer.c:272-297: after F1..F3 and F5..F7 ("loose leads") the second byte is not checked. Whatever stands there
  counts for it, even the quote that ends the string; then the two bytes still missing are asked of the next string.
  The string language is told from the number of bytes pending where a string begins, and so is complete
  (`StringReading.StringLanguage`).
- lexer.c:427: the overflow guard is conservative; the largest integer of every signed type is itself refused
  (`NumberValues.SignedMaximumRefused`).
- lexer.c:456-457: the registers of a fraction wrap silently; the double is exact exactly when they have not
  (`NumberValues.DoubleExact`).
- lexer.c:471, lexer.c:511, lexer.c:624, lexer.c:635: the table is read past its end if and only if the number of
  fraction digits, modulo 65536, is above 323 (`NumberValues.TableOverrun`).
- lexer.c:623-642: the final call does not ask for the digits that a push asks for at lexer.c:465 and lexer.c:505
  (`ByteLanguage.FinalizeLikeSpace`).
- parser.c:414, parser.c:423, parser.c:450, parser.c:459: for a number where a comma could come the code names the
  bracket that could not: `{"a":1 2}` is told to expect `]`, and `[1 2]` to expect `}`. It is so for no other token
  and in no other place (`TokenErrors.NamedIsWelcome`).
- parser.c:202: where a key or `}` could come, only a key is said to be expected, unless a number came
  (`TokenErrors.WelcomeIsNamed`).
- lexer.c:417-418 and lexer.c:614-616: a minus without a digit is reported as the end of the input in a string, and
  lexer.c:352-353: an unescaped control character as malformed UTF-8, though common.h:196 has a code for it, which is
  never reported (`LexerErrors.LexicalErrorMeaning`).
- lexer.c:92: by the comment `powm10(n)` is ten to the power 308 - n; the entry returned is ten to the power -n
  (`PrintedNumbers.TableOfPowers`).

## Model

| member | source | states |
|---|---|---|
| Driver.ParseDocument | embedjson_lint.c:172-194 | a document pushed in any pieces and finalized is accepted exactly if it is in one piece, with the same callbacks by byte, the same first error and never an internal one; the callbacks are, chunk by chunk, those of the pieces, and no chunk is empty; after a success a consumer of the callbacks holds one value within the depth limit, whose traversal they are; after a failure no callback is missing but those of one last string slice |
| Driver.PushPieces | embedjson_lint.c:177-186 | pushing piece after piece until one fails ends as the pure run over all pieces does, with exactly its callbacks |
| EmbedJson.Parser.constructor | README.md:68-69 | a zeroed parser is valid, is the initial state of the pure system, and has made no callback |
| EmbedJson.Parser.Push | lexer.c:181-602 | the push loop with its step back, its slices and its single write-back refines the pure push: same final lexer, state and stack, same first error, and exactly the callbacks of `Traced`, after an error too; on an error the lexer is as before; n bytes take at most 2n + 1 passes |
| EmbedJson.Parser.Loop | lexer.c:195-580 | at every index the callbacks made, and those that the pending slice and the rest of the buffer will make, are the whole; twice the bytes left, plus one outside LOOKUP_TOKEN, falls with every pass |
| EmbedJson.Parser.AccountedPass | lexer.c:195-580 | a pass keeps that account and the invariant of lexer and parser; on an error everything due has been told |
| EmbedJson.Parser.Pass | lexer.c:212-579 | one pass through the switch takes the tokens of one iteration, makes exactly its callbacks and leaves exactly its slice; a refused one tells nothing |
| EmbedJson.Parser.OutsidePass | lexer.c:213-256 | the same, outside plain string contents; a pass that enters a string leaves the slice empty, beginning after the byte |
| EmbedJson.Parser.LookupArm | lexer.c:213-256 | between tokens: punctuation is handed to the parser, a quote opens a string whose slice begins after it, anything else begins a word or number or is refused, as in the pure lexer |
| EmbedJson.Parser.PunctuationArm | lexer.c:216-228 | a byte that is a token by itself moves the parser as the pure machine moves, or is refused with its error and no callback |
| EmbedJson.Parser.StringArm | lexer.c:257-357 | a byte of a string joins the pending slice, or sends it and leaves plain contents, with the pure lexer's checks |
| EmbedJson.Parser.CloseArm | lexer.c:343-349 | the closing quote sends the last slice, if any, before the end callback |
| EmbedJson.Parser.FlushChunk | lexer.c:337-341 | a pending slice is handed over as one chunk, and an empty one is not |
| EmbedJson.Parser.EscapeArm | lexer.c:358-385 | a two-character escape delivers its one byte and the next slice begins after it |
| EmbedJson.Parser.UnicodeArm | lexer.c:386-411 | the fourth hexadecimal digit delivers the two bytes of the value |
| EmbedJson.Parser.NumberArm | lexer.c:412-526 | a byte extends the number, is refused, or ends it: then the token is handed over, made with the table read as the code reads it, and the byte is left to be read again |
| EmbedJson.Parser.EndNumberArm | lexer.c:444-452 | a number that ended is handed over and the registers it used, and only those, are cleared |
| EmbedJson.Parser.KeywordArm | lexer.c:549-578 | the last letter of a keyword hands over its token, any other letter must be the next of the word |
| EmbedJson.Parser.Finalize | parser.c:129-136 | the final call refines the pure one: same status, same callbacks |
| EmbedJson.Parser.FinishNumber | lexer.c:617-642 | a number that the end of the input completes is handed over with the value of its registers, without any test of them |
| EmbedJson.Parser.StackFull | parser.c:75-79 | a stack that is not full has a free bit in its array, whatever the capacity; up to 31 bytes it is full exactly when every bit is taken |
| EmbedJson.Parser.WriteBit | parser.c:90-96 | the array changes by one written bit |
| EmbedJson.Parser.StackPush | parser.c:81-99 | a push appends to the sequence of bits, or overflows and changes nothing |
| EmbedJson.Parser.StackPop | parser.c:101-104 | a pop drops the last bit of the sequence |
| EmbedJson.Parser.StackTop | parser.c:106-111 | the bit read is the last of the sequence |
| EmbedJson.Parser.OpenContainer | parser.c:149-153 | a begin callback is made exactly when there is room, and the stack grows by that bracket |
| EmbedJson.Parser.CloseContainer | parser.c:192-200 | after the end callback the state is that of the container uncovered by the pop |
| EmbedJson.Parser.ValueToken | parser.c:147-184 | a token where a value is expected moves the parser as the shipped machine moves |
| EmbedJson.Parser.Token | parser.c:138-389 | from every coupled state, `embedjson_token` is one step of the shipped machine: state, stack, callbacks, error; a refused token changes nothing |
| EmbedJson.Parser.TokenNumber | parser.c:399-469 | the same for numbers, with their own error codes |
| EmbedJson.Parser.TokenStringBegin | parser.c:471-499 | the same for the begin of a string |
| EmbedJson.Parser.TokenStringChunk | parser.c:391-397 | a chunk is delivered as it is, in every state |
| EmbedJson.Parser.TokenStringEnd | parser.c:501-522 | the same for the end of a string, by the table of next states |
| EmbedJson.BeginWordOrNumber | lexer.c:234-255 | the branches for words, numbers, leading plus and unexpected symbols agree with the pure lexer |
| EmbedJson.ClassifyStringByte | lexer.c:310-355 | the mask tests for leads, backslash, quote and controls, in their order, agree with the ranges of the pure lexer |
| EmbedJson.CountContinuation | lexer.c:259-309 | the mask tests for continuation bytes and the two counters agree with the ranges of the pure lexer |
| EmbedJson.ReadStringByte | lexer.c:257-357 | checking and classifying one string byte agrees with the pure lexer |
| EmbedJson.ReadHexDigit | lexer.c:386-410 | a digit fills its half of its byte, by shift and bitwise or |
| EmbedJson.OrInto | lexer.c:400-403 | into an empty lower half, bitwise or writes the digit and keeps the upper half |
| EmbedJson.ReadNumberByte | lexer.c:412-526 | the number states agree with the pure lexer, with the guards in the form and in the order the code computes them, and no others |
| EmbedJson.MakeNumber | lexer.c:470-474 | the product with the entry of the table is the shift of the decimal point, as long as there is an entry |
| LexerMachine.ScanConcat | lexer.c:184-195 | cutting the input anywhere and resuming changes neither tokens nor outcome nor final state |
| LexerMachine.ScanAllConcat | lexer.c:605-660 | the same with the final call at the end |
| LexerMachine.IterateKeepsInv | lexer.h:41-88 | every pass keeps: number registers clear outside numbers and in range inside, so numbers do not depend on what came before; corner case 1 only with two bytes missing, 2 and 3 only with three; outside plain string contents none or two bytes missing; offsets inside the word or escape |
| LexerMachine.ScanKeepsInv | lexer.c:181-602 | so does every push |
| Pushdown.AdvanceKeepsSound | parser.c:138-522 | from a coupled state no token gives an internal error; a success keeps state coupled to stack top and depth within the limit and makes exactly the token's callbacks |
| Pushdown.FeedKeepsSound | parser.c:138-522 | the same over every sequence of tokens |
| Pushdown.StackIsUnclosed | parser.c:81-111 | the stack is, bit by bit, the begin callbacks not yet closed, and every end callback closes the innermost, of its own kind |
| Documents.TokensReportTraversal | parser.c:138-522 | the callbacks of a value's tokens are the in-order traversal of the value, whichever commas are left out |
| Documents.ChunksDoNotMatter | README.md:56-58 | a consumer that concatenates chunks ends in the same state wherever they are cut |
| Documents.TraversalRebuilds | README.md:51-62 | a consumer of the callbacks gets back the value they traverse, in any context |
| Documents.TraversalInjective | README.md:51-62 | two values with the same callbacks are equal |
| Language.EverySpellingAccepted | doc/syntax-parser-fsm.dot:36-68 | both machines accept every spelling of every value within the depth limit |
| Language.AcceptedIsSpelling | parser.c:138-522 | what either machine accepts is the spelling of the value that the callbacks build, and the callbacks are its traversal |
| Language.AcceptsExactlySpellings | doc/syntax-parser-fsm.dot:36-68 | the language theorem, both directions, for the diagram (with the grammar of RFC 8259, sections 3 to 5) and for the code (with the grammar in which nothing separates an empty-array member from the next) |
| Language.AcceptedReportsOneValue | parser.c:129-136 | the callbacks of an accepted sequence are the traversal of exactly one value |
| Language.CommasLeftOut | parser.c:294-295 | the shipped spelling of a value is never longer than the standard one, and equal to it exactly when no empty array is a member other than the last |
| Language.ShippedAcceptsStandardSpelling | parser.c:283-299 | the code accepts the standard spelling of a value exactly when no empty array is a member other than the last |
| Language.CompletionFinishes | parser.c:504-515 | from every sound state, even inside a string, some tokens that open nothing lead to DONE with an empty stack |
| Language.ViablePrefix | parser.c:146-387 | the parser goes on exactly as long as the tokens read begin the spelling of some value within the limit |
| Language.AdvanceWithLimits | parser.c:81-89 | a smaller limit changes a step only where the stack would outgrow it, to an overflow without callbacks |
| Language.DepthLimitExact | parser.c:75-99 | a run overflows if and only if, with all the room it could use, it nests deeper than the limit; otherwise the limit changes nothing |
| Language.DepthDecides | README.md:40 | a value's tokens are accepted up to the depth limit, and are a stack overflow beyond it |
| Numbers.CompleteIsGrammar | lexer.c:412-526 | the texts the number states can finish are those of section 6 of RFC 8259 within the limits of the registers |
| Numbers.ReadOne | lexer.c:412-526 | one more byte of a number leads silently to the registers of the longer text, or stops if no number can begin so |
| Numbers.EndOne | lexer.c:443-525 | a byte that does not continue a number ends it with the token of its text and is then read as if no number had been; an unfinished number is refused |
| Numbers.FinishOne | lexer.c:617-642 | at the end of the input a number is exactly a text with digits before the point and something after an exponent letter |
| Numbers.ScanNumber | lexer.c:412-526 | after a number's text the registers hold what the text says, from any idle state |
| Numbers.NumberUnique | lexer.c:412-526 | the number grammar is unambiguous |
| Numbers.NumberLanguage | lexer.c:412-526 | before a delimiter, whatever came earlier, a text is read as exactly one number if and only if it is in the grammar, passes the integer guard and the exponent limit, and its fraction digits are not a multiple of 65536; the token is that of the text |
| NumberValues.GuardClosedForm | lexer.c:427 | the guard at every digit amounts to one test of the whole value: its last digit plus the value before it is at most a tenth of the maximum |
| NumberValues.IntegerExact | lexer.c:421-453 | a delivered integer is the signed value of its digits and fits the type, of any width |
| NumberValues.MaximumRefused | lexer.c:427 | the digits of the maximum are accepted exactly if it ends in a zero |
| NumberValues.SignedMaximumRefused | lexer.c:427 | for a signed type of any width from eight bits on they are refused: its maximum is odd |
| NumberValues.EighteenDigits | common.h:59 | with 64 bits every integer of up to 18 digits is accepted |
| NumberValues.WrappedFraction | lexer.c:456-457 | once the count of fraction digits has wrapped, the registers hold the fraction only if it is zero |
| NumberValues.DoubleExact | lexer.c:454-525 | as long as the table has an entry for the number of fraction digits, a delivered double, as a rational, is what its text denotes if and only if neither fraction register has wrapped |
| NumberValues.DoubleCertain | lexer.c:454-525 | for every number, whatever is read beyond the table: the double is certain to be exact if and only if the fraction is zero, or fits 64 bits and 323 digits |
| NumberValues.NineteenDigits | lexer.c:454-525 | so it is with up to 19 fraction digits |
| NumberValues.TableAccesses | lexer.c:94-178 | in every reachable state the exponent stays below 3240 before it is checked and its entry is in the table of 632 powers; the entry for the fraction is there if and only if the count of digits is at most 323 |
| NumberValues.TableOverrun | lexer.c:454-525 | the numbers for which the table is read past its end, in a push and in the final call, are those whose number of fraction digits, modulo 65536, is above 323 |
| NumberValues.DefaultMaximum | common.h:59 | the default maximum is that of a signed type of 64 bits |
| PrintedNumbers.ShownIsRead | lexer.c:250 | the numeral written for n, digit by digit, is worth n |
| PrintedNumbers.ReadIsShown | lexer.c:421-437 | and a numeral without a zero in front is the one written for its value |
| PrintedNumbers.PrintedIntegerIsRead | lexer.c:412-453 | an integer in decimal, before a delimiter, is read as that integer, and as no other number, if and only if it has one digit or its last digit plus what stands before it is at most a tenth of the maximum |
| PrintedNumbers.TableOfPowers | lexer.c:94-178 | the table's entry for n is the reciprocal of ten to the n, and ten to the -n for a negative n |
| PrintedNumbers.ExponentTable | lexer.c:499-500 | the two limits of the exponent are the ends of the table of 632 entries, from both sides |
| PrintedNumbers.ExponentRefused | lexer.c:495-503 | a number of the grammar that is fine up to its exponent is refused with the overflow code, at the digit that is too much, if and only if the table has no entry for the exponent; otherwise the registers hold it |
| PrintedNumbers.PrintedDecimalIsRead | lexer.c:412-526 | a sign, a whole part, up to 323 places and an exponent, in any spelling, are read as exactly the rational meant if and only if the whole part is admitted, the exponent is from -323 to 308 and the fraction as an integer fits 64 bits |
| Strings.ScanPiece | lexer.c:257-411 | a correct piece of a string (unit, escape, or a part of what follows a loose lead) is read wherever it may come, and delivered as the decoder says |
| Strings.ScanBody | lexer.c:257-411 | conservation: the bytes delivered for a body are the decoding of its pieces |
| StringReading.StringLanguage | lexer.c:257-411 | for all bytes: from where a string begins, `body` and a quote are read as one string if and only if `body` splits into correct pieces that may follow each other; what is delivered is their decoding, and the bytes left pending are those of a loose lead at the end |
| Strings.OrderlyIsBody | lexer.c:257-411 | a body without loose leads can stand in every string that begins with nothing pending, and leaves nothing pending |
| StringReading.SplitUnique | lexer.c:257-411 | the split into pieces is unique |
| PrintedStrings.ShortEscapes | lexer.c:358-376 | both directions: a letter is decoded to a byte if and only if they are one of the eight pairs of section 7 of RFC 8259; and the printer has the same table |
| PrintedStrings.HexitValue | lexer.c:386-398 | a hexadecimal digit written for d, with a capital or a small letter, is worth d |
| PrintedStrings.HexitsDecode | lexer.c:386-411 | every spelling of a 16-bit number in four hexadecimal digits, in any mixture of cases, is decoded to its two bytes, the higher one first |
| PrintedStrings.DecodeUndoesPrint | lexer.c:358-411 | decoding undoes a printer that may write any unit as it stands, any of the eight bytes by its letter, `\/` included, and any two bytes by `\u` |
| PrintedStrings.PrintedStringIsRead | lexer.c:257-411 | what the printer writes between two quotes is read as one string, and what it meant is delivered |
| PrintedStrings.OrderlyIsPrinted | lexer.c:257-411 | and nothing else is: every body without loose leads is what the printer writes for the bytes it is decoded to |
| Utf8.UnitsAmongUtf8 | lexer.c:258-356 | of the well-formed characters of RFC 3629, section 4, the lexer's units are those that need no escape and are not in the second plane |
| Utf8.UnitsBesidesUtf8 | lexer.c:310-356 | of the units the lexer takes, exactly stray continuation bytes, leads C0 and C1, surrogates and leads F5..F7 are not well-formed UTF-8 |
| Utf8.BodyWellFormed | lexer.c:258-356 | soundness of the validation, exactly: a body that is read is well-formed, escapes or not, if and only if no piece of its split is one of those units or belongs to a loose lead |
| Utf8.StringWellFormed | lexer.c:258-356 | the same of every string that is read, by its one split |
| Utf8.Utf8Bodies | lexer.c:258-356 | a well-formed body without controls, quotes and backslashes is delivered verbatim if and only if it has no character of U+20000 to U+2FFFF, and is refused if it has |
| Utf8.SecondPlaneRefused | lexer.c:273-284 | a well-formed body with such a character stops the lexer, wherever it stands |
| Terminals.LexerTests | lexer.c:214-256 | the lexer's tests for white space, digits, exponent letters, hexadecimal digits and continuation bytes are the ranges of RFC 8259, sections 2, 6 and 7, and of RFC 3629 |
| Terminals.Words | lexer.c:549-578 | the three words of the grammar, in letters |
| Layouts.LayoutIsRead | lexer.c:181-660 | every layout of lexemes, with any white space, is read to its end, and the tokens are those of the lexemes |
| Layouts.TakeLayout | lexer.c:181-660 | an input read to its end, whatever its bytes, is the text of a layout |
| Layouts.LexerLanguage | lexer.c:181-660 | the byte language of the lexer, for all bytes and from between any two tokens: both directions, and the tokens |
| Layouts.StructuralTokens | lexer.c:216-228 | a byte is a token by itself, and which one, exactly as section 2 of RFC 8259 has it |
| Layouts.WordsAreSpelled | lexer.c:549-578 | of an input read to its end the first token is a word if and only if the input begins with the word's letters |
| Layouts.LawfulIsValid | lexer.c:444-526 | lexemes that are lawful one by one may stand side by side without white space, unless two numbers meet |
| System.PushConcat | lexer.c:184-195 | two pushes are one push of the concatenation |
| System.PushesAreOnePush | lexer.c:184-195 | cut invariance: any pushes, empty ones included, have the callbacks by byte, the first error and the final state of a single push |
| System.RunIgnoresCuts | parser.c:113-136 | the same of whole runs with the final call |
| System.ScanShaped | lexer.c:229-411 | the lexer's string tokens always open and close properly, and its state says whether a string is open |
| System.PushKeepsInv | parser.c:504-522 | every push keeps both machines' invariants and their coupling: inside a string the parser is in a state that admitted it, so the table of next states never gives the invalid one, and no error is internal |
| System.FinalizeSound | parser.c:129-136 | nor does the final call give an internal error |
| System.RunsAreSound | parser.c:113-136 | over whole runs, cut anywhere: no internal error, matched callbacks, and a stack equal to the unclosed ones |
| System.PushIteration | lexer.c:195-226 | one pass takes its own tokens off the front of the push, leaving the same byte or the next |
| Traces.TracedByByte | lexer.h:25-34 | by byte, the exact callbacks of a push are those of the pure push; after an error no more than a last slice is missing |
| Traces.TracedNoEmpty | lexer.c:337-349 | no chunk is empty, also after an error |
| Traces.TracedAllByByte | lexer.c:184-195 | the same of several pushes |
| Chunks.YieldsBody | lexer.h:25-34 | a string body within one buffer is reported in these chunks: each escape by itself, and whatever stands between two escapes as one |
| Chunks.BodyCut | lexer.c:582-586 | where the buffer ends inside a body, what is pending is sent as one chunk |
| Viable.LookupCompletes | parser.c:504-515 | between two tokens of any run there are bytes that lead to acceptance |
| Viable.ViableInput | lexer.c:195-580 | an input that has met no error begins an accepted one, except exactly while a word or number is being read where the parser takes no value |
| ByteLanguage.SpellingIsAccepted | parser.c:113-136 | a laid-out spelling of a value within the depth limit is accepted and reports the value's traversal |
| ByteLanguage.AcceptsExactlyDocuments | parser.c:113-136 | the byte language, for all bytes: an input is accepted if and only if it is a layout, with any white space, of the shipped spelling of a value within the depth limit |
| ByteLanguage.AcceptedRunReportsOneValue | parser.c:113-136 | soundness for all bytes and all cuts: after an accepted run the callbacks are the traversal of exactly one value, which a consumer then holds |
| ByteLanguage.StandardDocuments | parser.c:113-136 | round trip: the standard spelling of a value, laid out and cut in any way, is accepted if and only if no empty array is a member other than the last, reports the traversal, and is a stack overflow if too deep |
| JsonText.PrintedDocumentComesBack | parser.c:113-136 | the round trip in bytes: a printed document, with any white space, any spelling of its strings and numbers and any cut into pushes, is accepted if and only if no empty array is a member other than the last (and is a stack overflow if too deep); the callbacks are the traversal of the value printed, and a consumer gets it back |
| JsonText.WordDocuments | lexer.c:549-578 | the three words by themselves are accepted and reported as true, false and null |
| ByteLanguage.LayoutWellFormed | lexer.c:258-356 | the text of a layout is well-formed UTF-8 if and only if all its strings are |
| ByteLanguage.AcceptedWellFormed | lexer.c:258-356 | an accepted document is well-formed UTF-8 if and only if no string of it has an ill-formed unit or a loose lead by itself |
| ByteLanguage.DocumentedLimit | parser.c:75-79 | eight levels a byte is the actual limit exactly up to 31 bytes; the default has 128 |
| ByteLanguage.FinalizeLikeSpace | lexer.c:605-660 | the final call succeeds, with the same callbacks, exactly as if a space had been pushed first, except that it lets a number pass whose exponent has no digit, or the count of whose fraction digits is zero modulo 65536 |
| TokenErrors.RefusalMeaning | common.h:144-176 | in every coupled state, for every token that cannot come: a code is reported if and only if its documentation fits, that is, it names the token where a value could come, nothing where nothing could, and otherwise the tokens that could come, with the two exceptions said above |
| TokenErrors.OverflowMeaning | parser.c:81-89 | a token that could come is refused only if it opens a container and the stack is full |
| TokenErrors.NamedIsWelcome | parser.c:399-469 | what an "expected" code names could have come, if and only if it was not for a number where a comma could come |
| TokenErrors.WelcomeIsNamed | parser.c:185-206 | all that could have come is named, if and only if moreover a key and the end of the object were not both possible, or a number came |
| TokenErrors.FirstErrorMeaning | parser.c:138-522 | the first error of any sequence of tokens is an overflow, or the code that fits the token it stopped at |
| LexerErrors.FaultsAt | lexer.c:212-579 | at every place, told by the text being read, exactly the bytes said give each of the lexer's codes |
| LexerErrors.EndFaultsAt | lexer.c:605-660 | the same of the end of the input |
| LexerErrors.SomePlace | lexer.c:195-580 | every input that has met no error ends at one of these places, with its text |
| LexerErrors.LexicalErrorMeaning | lexer.c:181-660 | the inputs that give each code, both directions: the lexer stops with it if and only if after some bytes without an error the text being read and the next byte, or the end, are a fault of that code |
| RunErrors.RunErrorMeaning | parser.c:113-136 | the error of a run, cut in any way, both directions: a fault of the tokens, or else one of the bytes, or else a document that is not whole |
| BitStack.MasksSeparate | parser.c:60-68 | setting or clearing one bit by its mask shows at no other bit |
| BitStack.WriteOneBit | parser.c:90-96 | a write sets its bit and leaves every other, in every byte |
| BitStack.PushBit | parser.c:81-99 | a write at the top is an append to the sequence of bits |
| Bytes.ContinuationMasks | lexer.c:267-305 | the masks for continuation bytes are the ranges of the comments |
| Bytes.AfterF0Mask | lexer.c:280 | the mask after F0 is 90..9F and B0..BF |
| Bytes.LeadMasks | lexer.c:310-312 | the masks for two- and three-byte leads are their ranges |
| Bytes.LongLeadMasks | lexer.c:317-324 | the masks for four-byte leads and for longer ones are their ranges |
| Departures.AfterEmptyArrayMember | parser.c:294-295 | after an empty array as a member, in any context, code and diagram each refuse what the other takes |
| Departures.EmptyArrayThenComma | parser.c:294-295 | the bytes `{"a":[],"b":null}` are refused at the second comma |
| Departures.EmptyArrayWithoutComma | parser.c:294-295 | the bytes `{"a":[] "b":null}` are accepted and reported as the same value |
| Departures.NumberForObjectComma | parser.c:414 | the bytes `{"a":1 2}` are refused because "a comma or a closing square bracket" was expected |
| Departures.NumberForArrayComma | parser.c:423 | the bytes `[1 2]` are refused because "a comma or a closing curly bracket" was expected |
| Departures.EndLeftOut | parser.c:202 | the bytes `{[` are refused because "a key" was expected, where the end of the object could have come too |
| Departures.MinusIsNoString | lexer.c:417-418 | the bytes `-x`, and `-` at the end, are refused as the end of the input in a string |
| Departures.ControlCharacter | lexer.c:350-353 | every control character in a string is refused as malformed UTF-8 |
| Departures.LooseLeadLeaks | lexer.c:272-297 | a string that a quote ends right after a loose lead is accepted, and the next string is refused for the bytes still missing |
| Departures.IllFormedUnits | lexer.c:310-356 | the strings of 80, of C0 80, of ED A0 80 and of F5 80 80 80 are accepted and delivered, and are not UTF-8 |
| Departures.SecondPlaneInput | lexer.c:280 | the string of F0 A0 80 80, which is UTF-8, is refused |
| Departures.UnfinishedAtTheEnd | lexer.c:623-642 | every number without the digits it announced is accepted at the end of the input and refused before a space |
| Departures.LargestInteger | lexer.c:427 | the digits of the maximum of a signed type are not read as a number |
| Departures.WrappedFractionInput | lexer.c:456-457 | 0.18446744073709551616 is accepted and delivered as zero, which it does not denote |
| Departures.TableOverrunInput | lexer.c:471 | 0.1...1 with 324 digits is accepted, before a space and at the end of the input, and its double is made with what lies beyond the table |
| Departures.ThirtyTwoBytes | parser.c:77 | with a stack of 32 bytes the first bracket overflows |

## Left out

- DoubleExact: doubles and table entries are exact rationals, not IEEE 754 numbers; rounding is not modelled.
- TableOverrun: what reading past the table does beyond giving some number (a fault, say) is not modelled.
- IntegerExact: is about the value stored; the sum in the middle of lexer.c:437 may pass the maximum in C.
- EmbedJson.Parser.Push: on an error the stack and the state of the parser are not specified; runs end at the first
  error.
- The big-number mode (`EMBEDJSON_BIGNUM`), and the build without UTF-8 validation.
- The dynamic stack (`EMBEDJSON_DYNAMIC_STACK`) and its overflow callback.
- `EMBEDJSON_DEBUG`: logging and the self-checks, whose internal errors are proved unreachable from the invariants.
- Error callbacks that return zero, value callbacks that return non-zero, and pushes after a failed one.
- The guess of the encoding from the first four bytes, which no branch of the lexer reads.
- Error positions and `embedjson_strerror`.
- The comparison that saves an unneeded write-back (lexer.c:598) is an assignment in the model.
- The identity of slices with the client's memory: a chunk is the sequence of bytes handed over, not a pointer.
- The command line tool's input and messages, the unit tests, the build files and the scripts.
