# A verified model of the Custom MIPS Assembler core

The assembler reads assembly text and produces two byte images, one for instructions and one
for data. Each image is a run of 32-bit big-endian words. The work is done in four stages:

- **Lexer** (`src/lexer.cpp`): a character cursor (`pos_`, `line_`, `current_char_`) that hands
  out one token per `next_token` call.
- **Parser** (`src/parser.cpp`): a recursive-descent parser with one token of lookahead. It
  builds an ordered list of nodes (R-type and I-type instructions, directives, labels). It
  recovers from an error thrown while the current token is ILLEGAL.
- **Symbol table** (`symbol_table.cpp`): a write-once map from label name to address.
- **Code generator** (`code_gen.cpp`):
  - `pass1` gives every node a section and a section-relative address, and binds the labels.
  - `pass2` sizes the two images and fills them with encoded words.
  - The encoders are `encode_r`, `encode_i` and `encode_word`; `write_uint32` serialises a word.

The fixed tables of `src/common.h` are shared by every stage: mnemonic sets, register names,
funct codes, opcodes and the register map.

The Dafny project has one module per file:

| file | module | what it holds |
|---|---|---|
| `wrappers.dfy` | `Wrappers` | `Option`, `Result`, `Outcome` |
| `common.dfy` | `Common` | integer ranges, `Token`, `Section`, `Node`, the lookup tables and their properties |
| `cnumbers.dfy` | `CNumbers` | the C library behaviour the source relies on: `<cctype>` classes, `std::stoll` with base 0, `int32_t`/`uint32_t` narrowing, truncating division |
| `lexer.dfy` | `Lexing` | the lexer as functions over a cursor snapshot, and the class `Lexer` proved to follow them |
| `parser.dfy` | `Parsing` | the grammar as functions over the token stream and an index, and the class `Parser` proved to follow them |
| `symbols.dfy` | `Symbols` | the symbol table as a map, and the class `SymbolTable` |
| `encoding.dfy` | `Encoding` | `get_reg_num`, `encode_r`, `encode_i`, `encode_word`, and the bit fields of a word |
| `codegen.dfy` | `CodeGen` | pass 1 and pass 2 as functions, the methods `Pass1`/`Pass2` over arrays, and `write_uint32` |
| `assembler.dfy` | `Assembler` | the composition lex → parse → pass 1 → pass 2, and what the images hold |

Every imperative member of the source is a method that updates the same state in place:

- The lexer's fields are the fields of `Lexing.Lexer`.
- The parser's current and lookahead tokens are fields of `Parsing.Parser`.
- The symbol map is a field of `Symbols.SymbolTable`.
- The AST is an `array<Node>` whose `address` and `section` `Pass1` writes.
- The output images are `array<byte>` buffers that `Pass2` fills through `WriteUint32`.

Each method's postcondition ties its result and new state to a specification function. The
properties the source promises are lemmas about those functions.

The encoders are pure functions that can fail, so they are modelled as functions returning a
`Result`. Every exception of the source is an error kind of a `Result`: `ParseErrorKind`,
`GenError` and `SymbolError`. Error message text is not modelled.

C++ arithmetic is written out explicitly:

- `uint32_t` counters and addresses wrap modulo 2^32 (`ToUint32`).
- The `int32_t` conversions of `stoll` results and of label addresses wrap into
  [-2^31, 2^31) (`ToInt32`).
- The truncating C `/` of the `beq` offset is `CDiv4`.

Pass 1 places every node at a multiple of 4 (`CodeGen.Pass1Aligned`), so that division is exact
(`Encoding.BranchOffsetIsExact`). Exactness is proved, not taken as a precondition.

Two behaviours of the code are easy to misread; the model follows the code:

- **Trailing comma in `.word`.** A trailing comma in a `.word` list is consumed. The operand loop
  takes the comma and then stops at the next non-value token (`Parsing.WordValuesShape`).
- **Bad registers are skipped.** A bad register name such as `$x9` becomes an ILLEGAL token in the
  lexer. The error thrown on it is then recovered in `parse`: the partial statement is dropped and
  parsing resumes after that token (`Parsing.BadLastRegisterIsSkipped`). When a comma follows the
  bad register, the comma is an unexpected token and parsing fails
  (`Parsing.BadMiddleRegisterIsFatal`).

The `sll`/`srl` shift amount is checked against [0, 31] after `stoll`'s result has been narrowed
to `int32_t`. The model keeps that order (`Encoding.ShiftFieldPlacement` states the amount as
`ToInt32(v)`).

## Model

| member | source | states |
|---|---|---|
| `Common.InstructionsPartition` | src/common.h:52-63 | INSTRUCTIONS is the union of RTYPE_INSTRUCTIONS and ITYPE_INSTRUCTIONS; the two are disjoint, with 8 and 3 mnemonics |
| `Common.RegistersAreRegMapKeys` | src/common.h:65-94 | REGISTERS is exactly the key set of REG_MAP |
| `Common.RegMapFollowsBanks` | src/common.h:89-94 | REG_MAP maps RegisterName(i) to i for every i in 0..31, maps every key back to its own name, and is injective: a bijection onto 0..31 in banks a, r, s, t |
| `Common.RegMapNamesAreBankNames` | src/common.h:89-94 | every REG_MAP key is the bank name of its index |
| `Common.BankA` | src/common.h:90 | a0..a7 map to 0..7 |
| `Common.BankR` | src/common.h:91 | r0..r7 map to 8..15 |
| `Common.BankS` | src/common.h:92 | s0..s7 map to 16..23 |
| `Common.BankT` | src/common.h:93 | t0..t7 map to 24..31 |
| `Common.FunctCodesCoverRType` | src/common.h:72-81 | FUNCT_CODES is defined exactly on RTYPE_INSTRUCTIONS, its codes are distinct, and each fits in 6 bits (type `Code6`) |
| `Common.OpcodesCoverIType` | src/common.h:83-87 | OPCODES is defined exactly on ITYPE_INSTRUCTIONS with lw 0x23, sw 0x2B, beq 0x04; the codes are non-zero, distinct and fit in 6 bits |
| `CNumbers.ToLower` | src/lexer.cpp:45 | `std::tolower`: letters map to lower case letters, and every character other than A-Z is unchanged |
| `CNumbers.DigitValue` | code_gen.cpp:167 | the value of a digit character is below its base: 8, 10 or 16 |
| `CNumbers.DigitPrefix` | code_gen.cpp:167 | the longest prefix of digits of the base: a prefix, made of digits only, and followed by a non-digit or the end |
| `CNumbers.SkipSpaces` | code_gen.cpp:167 | removes the leading white space: the result is no longer than the input and does not start with a space |
| `CNumbers.SkipSpacesIsSuffix` | code_gen.cpp:167 | what is left after the white space is a suffix of the input |
| `CNumbers.StrToLL` | code_gen.cpp:167 | `std::stoll(s, nullptr, 0)` throws `invalid_argument` exactly when no digit follows the white space and the optional sign |
| `CNumbers.IdentifierIsNotNumber` | code_gen.cpp:180-187 | text that starts with a letter or '_' is never a number, so `encode_word` falls through to the label lookup |
| `CNumbers.DigitPrefixOfDigits` | code_gen.cpp:167 | a text made only of digits of the base is its own digit prefix |
| `CNumbers.PlainDecimal` | code_gen.cpp:167 | a decimal literal without leading zero converts to its decimal value, or is `out_of_range` when that value exceeds LLONG_MAX |
| `CNumbers.DecimalPrefix` | code_gen.cpp:167 | decimal digits followed by text that is not a digit convert to the value of the digits alone, or are `out_of_range` above LLONG_MAX: the trailing text is ignored |
| `CNumbers.HexLiteral` | code_gen.cpp:167 | "0x" or "0X" followed by at least one hex digit is read in base 16 up to the first non-hex character, and is `out_of_range` above LLONG_MAX |
| `CNumbers.OctalPrefix` | code_gen.cpp:167 | a leading '0' not followed by "x" and a hex digit selects base 8: the octal digits after it are read up to the first non-octal character, so "0" alone and "0x" without a hex digit are 0 |
| `CNumbers.NegativeText` | code_gen.cpp:167 | a leading '-' leaves `invalid_argument` unchanged and negates a converted value |
| `CNumbers.NegativeAfterSpace` | code_gen.cpp:167 | one white-space character, then '-', then a digit: the magnitude read after the sign, negated |
| `CNumbers.LeadingSpace` | code_gen.cpp:167 | leading white space is skipped: the text converts as it does without its first space |
| `CNumbers.OctalZero` | code_gen.cpp:167 | a '0' followed by neither an octal digit nor "x"/"X" and a hex digit reads as 0, whatever follows |
| `CNumbers.OctalExample` | code_gen.cpp:167 | "010" is 8 |
| `CNumbers.OctalStopsExample` | code_gen.cpp:167 | "09" is 0: the octal read stops at '9' |
| `CNumbers.HexNeedsDigitExample` | code_gen.cpp:167 | "0xg" is 0: without a hex digit after "0x" only the '0' is read |
| `CNumbers.HexDigitsExample` | code_gen.cpp:167 | "0x1F" is 31 |
| `CNumbers.HexExample` | code_gen.cpp:167 | " -0x1F" is -31: white space, then the sign, then the base prefix |
| `CNumbers.TrailingTextExample` | code_gen.cpp:167 | "42abc" is 42 |
| `CNumbers.ToInt32` | code_gen.cpp:161 | conversion to `int32_t`: the identity on [-2^31, 2^31), and congruent to the input modulo 2^32 |
| `CNumbers.ToUint32` | code_gen.cpp:182 | conversion to `uint32_t`: the identity on [0, 2^32), and congruent to the input modulo 2^32 |
| `CNumbers.CDiv4` | code_gen.cpp:161 | C's truncating division by 4: the remainder has the sign of the dividend and is below 4 in size, and division of a multiple of 4 is exact |
| `Lexing.StripDollar` | src/lexer.cpp:65-69 | removes one leading '$' when there is one, and nothing otherwise |
| `Lexing.Peek` | src/lexer.cpp:45 | `input_[pos_ + 1]`: on a valid cursor, the character that `advance` moves onto next, '\0' at the end; `read_number` and `next_token` test it for the 'x' of "0x" |
| `Lexing.Start` | src/lexer.cpp:5-6 | the constructor's state is a valid cursor |
| `Lexing.Step` | src/lexer.cpp:8-16 | `advance` keeps the cursor valid and either moves one character on or sets '\0' in place; the line count rises by one exactly when it steps onto a '\n'; while the current character is not '\0', the characters left decrease |
| `Lexing.StepIdlesAtEnd` | src/lexer.cpp:8-16 | on the last character `advance` sets '\0' without moving, and a further `advance` changes nothing |
| `Lexing.SkipSpace` | src/lexer.cpp:18-22 | `skip_whitespace` stops on '\0' or a non-space, and every character it passed is white space |
| `Lexing.SkipToLineEnd` | src/lexer.cpp:24-28 | `skip_comment` stops on '\0' or '\n', and no character it passed is a newline |
| `Lexing.IdentRun` | src/lexer.cpp:30-37 | `read_ident` returns the run of alphanumerics and '_' under the cursor, exactly as it stands in the input, and stops before a character that cannot continue it |
| `Lexing.DigitRun` | src/lexer.cpp:48-56 | the digit loops of `read_number` collect only digits of the base and stop on a non-digit |
| `Lexing.NumberRun` | src/lexer.cpp:39-59 | `read_number` returns an optional '-' then "0x" and hex digits or decimal digits (either run may be empty, so a lone "-" is a number); it consumes input when it starts on '-' or a digit |
| `Lexing.SkipTrivia` | src/lexer.cpp:72-77 | white space and `;` comments are skipped: the cursor stops on '\0' or on a character that is neither a space nor ';' |
| `Lexing.WordToken` | src/lexer.cpp:83-89 | an identifier becomes an INST or IDENT token and consumes input |
| `Lexing.NumberToken` | src/lexer.cpp:91-93 | a digit or '-' becomes a NUMBER token and consumes input |
| `Lexing.DollarToken` | src/lexer.cpp:95-102 | '$' becomes a REGISTER or ILLEGAL token and consumes input |
| `Lexing.CharToken` | src/lexer.cpp:104-132 | every other character becomes a one-character token other than EoF and is consumed |
| `Lexing.LexToken` | src/lexer.cpp:79-132 | after trivia, EoF is returned exactly when the current character is '\0', and then nothing changes; every other token consumes at least one character |
| `Lexing.Lex` | src/lexer.cpp:71-133 | `next_token` returns EoF only at the end of the input, with an empty literal; every other token consumes at least one character, so tokenisation terminates |
| `Lexing.LexWellFormed` | src/lexer.cpp:71-133 | every token is well formed: identifiers are INST exactly when in INSTRUCTIONS and IDENT otherwise; numbers have the literal shape above; REGISTER is "$" plus a name in REGISTERS; ILLEGAL is "$" plus a non-register name or one stray character; punctuation tokens carry their character |
| `Lexing.WordTokenWellFormed` | src/lexer.cpp:83-89 | an identifier is tagged INST exactly when it is in INSTRUCTIONS, and IDENT otherwise |
| `Lexing.NumberTokenWellFormed` | src/lexer.cpp:91-93 | a NUMBER token's literal has the number shape |
| `Lexing.DollarTokenWellFormed` | src/lexer.cpp:95-102 | '$' plus a name is REGISTER exactly when the name is in REGISTERS, and ILLEGAL otherwise |
| `Lexing.CharTokenWellFormed` | src/lexer.cpp:104-132 | the punctuation characters give their own token kinds, and any other character gives a one-character ILLEGAL token |
| `Lexing.InsideStream` | src/lexer.cpp:79-81 | a token other than EoF lies before the end of the stream |
| `Lexing.TokensFrom` | src/lexer.cpp:71-133 | calling `next_token` until EoF gives a stream that ends in exactly one EoF |
| `Lexing.TokensWellFormed` | src/lexer.cpp:71-133 | every token of that stream is well formed |
| `Lexing.EofIsSticky` | src/lexer.cpp:79-81 | once `next_token` has returned EoF, it returns the same EoF again and leaves the state unchanged |
| `Lexing.NextTokenIsAt` | src/parser.cpp:8-17 | pulling tokens one by one from the lexer yields the stream in order, then its EoF forever, so a parser over the stream sees what a parser over the lexer sees |
| `Lexing.Lexer.constructor` | src/lexer.cpp:5-6 | sets the start state |
| `Lexing.Lexer.IsInstruction` | src/lexer.cpp:61-63 | holds exactly on a mnemonic that has a funct code or an opcode, since INSTRUCTIONS is the union of the R-type and I-type mnemonics (`Common.InstructionsPartition`) |
| `Lexing.Lexer.IsRegister` | src/lexer.cpp:65-69 | holds exactly when the name, less one leading '$', is a REG_MAP key, since REGISTERS is the key set of REG_MAP (`Common.RegistersAreRegMapKeys`) |
| `Lexing.Lexer.Advance` | src/lexer.cpp:8-16 | updates the fields as `Step` says |
| `Lexing.Lexer.SkipWhitespace` | src/lexer.cpp:18-22 | the loop leaves the state `SkipSpace` gives |
| `Lexing.Lexer.SkipComment` | src/lexer.cpp:24-28 | the loop leaves the state `SkipToLineEnd` gives |
| `Lexing.Lexer.ReadIdent` | src/lexer.cpp:30-37 | the loop returns the text and leaves the state `IdentRun` gives |
| `Lexing.Lexer.ReadDigits` | src/lexer.cpp:48-56 | the loop appends the digits `DigitRun` gives and leaves its state |
| `Lexing.Lexer.ReadNumber` | src/lexer.cpp:39-59 | returns the text and leaves the state `NumberRun` gives |
| `Lexing.Lexer.NextToken` | src/lexer.cpp:71-133 | returns the token and leaves the state `Lex` gives, recursing after a comment |
| `Parsing.ExpectAt` | src/parser.cpp:19-28 | `expect_token` passes exactly when the token at the position has the expected kind, and otherwise fails at that position with an Expected error for that kind (`Parsing.Parser.ExpectToken` follows it) |
| `Parsing.RegisterAt` | src/parser.cpp:30-47 | `expect_register` accepts exactly a REGISTER token whose name, without '$', is a register; otherwise it fails at the current token |
| `Parsing.RTypeAt` | src/parser.cpp:80-111 | an R-type statement spans 6 tokens and builds an unplaced RType node; a failure lies within those tokens |
| `Parsing.BaseAt` | src/parser.cpp:147-152 | the optional `(reg)` base takes 3 tokens when the current token is '(' and none otherwise, leaving rs empty |
| `Parsing.ITypeAt` | src/parser.cpp:113-170 | an I-type statement spans at most 7 tokens and builds an unplaced IType node; a failure lies within those tokens |
| `Parsing.BranchAt` | src/parser.cpp:121-133 | `beq` spans 6 tokens and always sets is_label_ref |
| `Parsing.MemoryAt` | src/parser.cpp:134-166 | `lw`/`sw` span 4 to 7 tokens |
| `Parsing.WordValues` | src/parser.cpp:189-209 | the `.word` operand loop never moves backwards |
| `Parsing.DirectiveAt` | src/parser.cpp:172-213 | a directive takes at least its '.' and its name and builds an unplaced Directive node; a failure is on one of those two tokens |
| `Parsing.StatementAt` | src/parser.cpp:228-264 | a statement consumes at least one token, and any node it builds is unplaced |
| `Parsing.ProgramFrom` | src/parser.cpp:266-286 | every node `parse` returns has the defaults of a fresh `Node`: address 0 and section TEXT |
| `Parsing.Program` | src/parser.cpp:266-286 | `parse` from the first token: every node it returns is unplaced, and an error that ends it is never on an ILLEGAL token, because those are recovered from (`Parsing.ProgramErrorNotAtIllegal`) |
| `Parsing.LexedRegisterOperand` | src/parser.cpp:30-47 | on a lexed stream, a register operand is accepted exactly when the token is a REGISTER, the stored name is in REGISTERS, and a rejection is always the `expect_token` error |
| `Parsing.RTypeShape` | src/parser.cpp:80-111 | an R-type parses exactly on INST reg , reg , reg, or on a NUMBER in third place for `sll`/`srl`; the node holds rd, rs, rt without '$', and a shift amount as its text |
| `Parsing.BeqShape` | src/parser.cpp:121-133 | `beq` parses exactly on reg , reg , IDENT; the first register is rs, the second rt, and the label reference is set |
| `Parsing.LoadStoreShape` | src/parser.cpp:134-166 | `lw`/`sw` parse exactly on reg , then a NUMBER or IDENT, then an optional ( reg ); IDENT marks a label reference, and rs stays empty without a base |
| `Parsing.WordValuesShape` | src/parser.cpp:183-210 | the `.word` list alternates value and comma tokens and its values are collected in source order; it stops at a non-value, or after a trailing comma, which is consumed; an empty list is accepted |
| `Parsing.LexedMnemonic` | src/parser.cpp:243-251 | on a lexed stream every INST is an R-type or an I-type mnemonic, so "Unknown instruction" cannot be thrown |
| `Parsing.RTypeErrorSources` | src/parser.cpp:80-111 | an R-type error other than `expect_token` comes from one of its three register operands |
| `Parsing.ITypeErrorSources` | src/parser.cpp:113-170 | an I-type error other than `expect_token` comes from a register operand |
| `Parsing.BranchErrorSources` | src/parser.cpp:121-133 | a `beq` error other than `expect_token` comes from one of its two registers |
| `Parsing.MemoryErrorSources` | src/parser.cpp:134-166 | a `lw`/`sw` error other than `expect_token` comes from the target or base register |
| `Parsing.BaseErrorSources` | src/parser.cpp:147-152 | a base error other than `expect_token` comes from the register inside the parentheses |
| `Parsing.LexedRTypeErrors` | src/parser.cpp:80-111 | on a lexed stream every R-type error is an `expect_token` error |
| `Parsing.LexedITypeErrors` | src/parser.cpp:113-170 | on a lexed stream every I-type error is an `expect_token` error |
| `Parsing.LexedStatementErrors` | src/parser.cpp:228-264 | on a lexed stream a statement fails only with an `expect_token` error or as an unexpected token |
| `Parsing.BadLastRegisterIsSkipped` | src/parser.cpp:269-282 | an R-type whose last operand is ILLEGAL is dropped with that token, and parsing goes on after it |
| `Parsing.BadMiddleRegisterIsFatal` | src/parser.cpp:269-282 | an R-type whose middle operand is ILLEGAL is dropped, and the comma after it ends parsing with an error |
| `Parsing.RTypeFailsAtMiddle` | src/parser.cpp:94 | an ILLEGAL middle operand fails `expect_register` on that token |
| `Parsing.RTypeFailsAtLast` | src/parser.cpp:107 | an ILLEGAL last operand fails `expect_register` on that token |
| `Parsing.CommaStartsNothing` | src/parser.cpp:260-263 | a statement cannot start with a comma |
| `Parsing.ProgramOnError` | src/parser.cpp:269-282 | an error thrown while the current token is ILLEGAL skips that token and goes on; any other error ends parsing with that error |
| `Parsing.IllegalIsSkipped` | src/parser.cpp:254-274 | `parse_statement` skips an ILLEGAL token where a statement would start and returns no node, and `parse` adds no node for it, so parsing from that token is parsing from the next one |
| `Parsing.StatementThenRest` | src/parser.cpp:269-274 | a statement that parses to a node puts that node in front of the nodes of the rest, and parsing succeeds exactly when the rest does |
| `Parsing.ProgramErrorNotAtIllegal` | src/parser.cpp:269-282 | the error that ends parsing from a position lies at or after that position and never on an ILLEGAL token |
| `Parsing.Parser.constructor` | src/parser.cpp:8-12 | the current token and the lookahead are the first two tokens |
| `Parsing.Parser.Advance` | src/parser.cpp:14-17 | the lookahead becomes current, and exactly one new token is pulled |
| `Parsing.Parser.ExpectToken` | src/parser.cpp:19-28 | passes exactly when the current token has the expected kind |
| `Parsing.Parser.ExpectRegister` | src/parser.cpp:30-47 | returns what `RegisterAt` gives, advancing only on success |
| `Parsing.Parser.ParseRType` | src/parser.cpp:80-111 | returns the node and leaves the position `RTypeAt` gives, or its error at the token it names |
| `Parsing.Parser.ParseBase` | src/parser.cpp:147-152 | follows `BaseAt` |
| `Parsing.Parser.ParseIType` | src/parser.cpp:113-170 | follows `ITypeAt` |
| `Parsing.Parser.ParseWordValues` | src/parser.cpp:189-209 | the loop collects the values and leaves the position `WordValues` gives |
| `Parsing.Parser.ParseDirective` | src/parser.cpp:172-213 | follows `DirectiveAt` |
| `Parsing.Parser.ParseStatement` | src/parser.cpp:228-264 | follows `StatementAt` |
| `Parsing.Parser.Parse` | src/parser.cpp:266-286 | the loop returns the nodes `ProgramFrom` gives, recovering from errors on ILLEGAL tokens as it does |
| `Symbols.Bind` | symbol_table.cpp:6-11 | `add` fails with a duplicate-label error for that name exactly when the name is already bound; on success the name maps to the address (`Symbols.BindIsWriteOnce` adds that nothing else changes) |
| `Symbols.BindIsWriteOnce` | symbol_table.cpp:6-11 | `add` fails exactly when the name is bound; otherwise it binds the name to the address, adds no other key and changes no other binding |
| `Symbols.Lookup` | symbol_table.cpp:13-17 | `get` returns a value exactly when the name is bound, and that value is its address |
| `Symbols.LookupAfterBind` | symbol_table.cpp:6-17 | after a successful `add`, `get` returns the new address for that name and what it returned before for every other name |
| `Symbols.BindingsAreStable` | symbol_table.cpp:6-11 | once bound, a name keeps its address through any successful run of further `add`s |
| `Symbols.SymbolTable.constructor` | symbol_table.cpp:6-11 | the table starts empty |
| `Symbols.SymbolTable.Add` | symbol_table.cpp:6-11 | the new table is what `Bind` gives; on failure the table is unchanged |
| `Symbols.SymbolTable.Get` | symbol_table.cpp:13-17 | returns a value exactly when the name is bound in the table, and that value is its address |
| `Symbols.SymbolTable.Exists` | symbol_table.cpp:19-21 | holds exactly when `get` returns a value |
| `Encoding.PackRFields` | code_gen.cpp:143 | the R-type fields can be read back from the packed word: opcode 0, then rs, rt, rd, shamt and funct |
| `Encoding.PackIFields` | code_gen.cpp:177 | the I-type fields can be read back from the packed word: opcode, rs, rt and the 16-bit immediate |
| `Encoding.GetRegNum` | code_gen.cpp:7-11 | succeeds exactly on REG_MAP keys, with their number below 32; an unknown name is an InvalidRegister error |
| `Encoding.ShiftFields` | code_gen.cpp:119-135 | for `sll`/`srl` the value register always lands in rt, and either rs or shamt is 0; it fails only on an amount outside [0, 31], a literal `stoll` cannot hold, or an unknown amount register (`Encoding.ShiftFieldPlacement`) |
| `Encoding.EncodeR` | code_gen.cpp:108-144 | succeeds only when the mnemonic has a funct code and rs and rd are REG_MAP keys; fails only with an unknown mnemonic, a bad register or a bad shift amount (`Encoding.EncodeRFields`, `Encoding.EncodeRPacked`) |
| `Encoding.EncodeRFields` | code_gen.cpp:108-144 | `encode_r` succeeds exactly when the mnemonic has a funct code and the registers are known; for `sll`/`srl`, the amount must be a number in [0, 31] or, when it is not a number, a register name; the word has opcode 0, the funct, rd, and for other mnemonics rs, rt and shamt 0 |
| `Encoding.EncodeRPacked` | code_gen.cpp:108-144 | the word's rs, rt and shamt fields are the three that `ShiftFields` chooses for shifts, and otherwise rs, rt and 0 |
| `Encoding.ShiftFieldPlacement` | code_gen.cpp:119-135 | `sll`/`srl` with a literal amount put it in shamt, with rs 0 and the value register in rt; with a register amount, rs is the amount register and rt the value register |
| `Encoding.Immediate` | code_gen.cpp:153-171 | the immediate fails with an unresolved-label error for a label reference and an invalid-immediate error for a literal, naming the operand (`Encoding.ImmediateSources`) |
| `Encoding.BranchOffset` | code_gen.cpp:160-161 | the offset is the `int32_t` distance divided by 4 rounding toward zero: the remainder has the sign of the distance and is below 4 in size (`Encoding.BranchOffsetIsExact`) |
| `Encoding.EncodeI` | code_gen.cpp:146-178 | succeeds only when the mnemonic has an opcode, rt is a REG_MAP key and rs is empty or one; fails only with an unknown mnemonic, a bad register, an unresolved label, an invalid immediate or an overflow (`Encoding.EncodeIFields`) |
| `Encoding.EncodeIFields` | code_gen.cpp:146-178 | `encode_i` succeeds exactly when the opcode and registers are known and the immediate exists and lies in [-32768, 32767]; the word holds the opcode, rs (0 without a base), rt, and the immediate in 16-bit two's complement |
| `Encoding.ImmediateSources` | code_gen.cpp:151-171 | a label reference needs the label to be bound, and a `lw`/`sw` label gives its absolute address; a literal needs `stoll` to convert it and gives its value |
| `Encoding.SignExtendInverts` | code_gen.cpp:173-177 | a value in [-32768, 32767] is recovered from its low 16 bits |
| `Encoding.BranchOffsetIsExact` | code_gen.cpp:160-161 | when the label and the instruction are at multiples of 4, the truncating division is exact and addr + 4 + 4 × offset is the label, modulo 2^32 |
| `Encoding.BranchDistanceWraps` | code_gen.cpp:161 | the `int32_t` difference of the addresses is the true difference modulo 2^32 |
| `Encoding.BeqEncodesTarget` | code_gen.cpp:146-178 | an encoded `beq` to an aligned label jumps, from an aligned address, exactly to that label |
| `Encoding.EncodeWord` | code_gen.cpp:180-188 | fails exactly when `stoll` does not convert the text and no label has that name, and then with an unresolved-label error naming it (`Encoding.EncodeWordSources`) |
| `Encoding.EncodeWordSources` | code_gen.cpp:180-188 | `encode_word` gives a number's value modulo 2^32 when `stoll` converts it, and otherwise succeeds exactly on a bound label with its address; text starting like an identifier is never a number |
| `Encoding.ExampleRegisters` | code_gen.cpp:7-11 | a0, a1 and t0 are registers 0, 1 and 24 |
| `Encoding.ExampleWords` | code_gen.cpp:143 | the three worked words 0x0000C104, 0x10010001 and 0x8C180064 pack from their fields |
| `Encoding.ShiftLeftExample` | code_gen.cpp:108-144 | `sll $t0,$a0,4` encodes to 0x0000C104 |
| `Encoding.ShiftExampleFields` | code_gen.cpp:119-135 | for `sll $t0,$a0,4` the fields are rs 0, rt a0 and shamt 4 |
| `Encoding.BranchExample` | code_gen.cpp:146-178 | `beq $a0,$a1,L` at address 0 with L = 8 encodes to 0x10010001 |
| `Encoding.LoadExample` | code_gen.cpp:146-178 | `lw $t0,100` encodes to 0x8C180064 |
| `CodeGen.Pass1From` | code_gen.cpp:19-50 | pass 1 over a stretch of nodes returns one placed node per node |
| `CodeGen.Pass1Of` | code_gen.cpp:13-52 | pass 1 returns one placed node per node of the AST |
| `CodeGen.Step` | code_gen.cpp:29-49 | one node fails exactly when it is an instruction in DATA or a `.word` in TEXT; only a directive changes the section, only an instruction the text counter, only a `.word` the data counter (`CodeGen.StepFollowsCounts`) |
| `CodeGen.StepFollowsCounts` | code_gen.cpp:29-49 | one node's counter update succeeds exactly when the node is in a section that admits it, and the new counters are those after one more node: 4 × instructions so far, 4 × `.word` values so far, the last section switch |
| `CodeGen.Pass1FromSucceeds` | code_gen.cpp:29-49 | pass 1 of the rest of the nodes succeeds exactly when each of them is in a section that admits it and no label name repeats or is already bound |
| `CodeGen.Pass1FromPlaces` | code_gen.cpp:20-27 | each node is placed with the counters that its predecessors leave |
| `CodeGen.Pass1FromStep` | code_gen.cpp:19-50 | pass 1 places the first node, binds it if it is a label, and goes on with the rest from the next counters |
| `CodeGen.Pass1FromKeys` | code_gen.cpp:29-31 | the final table binds exactly the names bound before and the label names met |
| `CodeGen.Pass1FromKeeps` | code_gen.cpp:29-31 | bindings made before are kept |
| `CodeGen.Pass1FromAddresses` | code_gen.cpp:20-31 | each label is bound to the address it was placed at |
| `CodeGen.Pass1Succeeds` | code_gen.cpp:13-52 | pass 1 succeeds exactly when no instruction is in DATA, no `.word` is in TEXT and no label repeats |
| `CodeGen.Pass1Places` | code_gen.cpp:20-27 | node i keeps its other fields, gets the section of the last `.text`/`.data` before it (TEXT if none), and gets the address 4 × instructions before it in TEXT, or 4 × `.word` values before it in DATA, modulo 2^32 |
| `CodeGen.Pass1Binds` | code_gen.cpp:29-31 | the table binds exactly the label names of the AST, each to the address of its label node |
| `CodeGen.Pass1Aligned` | code_gen.cpp:36-47 | every address pass 1 gives and every bound label is a multiple of 4 |
| `CodeGen.LabelBindsNextAddress` | code_gen.cpp:20-31 | a label gets the address and section of the node after it, so it binds the address of the next item |
| `CodeGen.Pass1` | code_gen.cpp:13-52 | the loop writes into the AST array the placed nodes `Pass1Of` gives and returns a fresh table holding its bindings, or its error |
| `CodeGen.BigEndian` | code_gen.cpp:190-196 | a word is four bytes |
| `CodeGen.BigEndianReadsBack` | code_gen.cpp:190-196 | reassembling the four bytes most significant first gives the word back |
| `CodeGen.WordAtWritesBack` | code_gen.cpp:190-196 | four bytes read as a word and written out again are the same four bytes |
| `CodeGen.Serialize` | code_gen.cpp:90-99 | a run of words takes four bytes per word |
| `CodeGen.SerializeReadsBack` | assembler.cpp:24-29 | the word read back at byte 4j of a serialised image is word j |
| `CodeGen.WriteUint32` | code_gen.cpp:190-196 | writes the value most significant byte first at pos..pos+3 and changes no other byte |
| `CodeGen.EncodeEach` | code_gen.cpp:96-100 | encoding a list of values gives one word per value |
| `CodeGen.EncodeValues` | code_gen.cpp:96-100 | the words of a `.word` list, one per value |
| `CodeGen.EncodeEachAt` | code_gen.cpp:96-100 | word j of the list is the encoding of value j |
| `CodeGen.EncodeEachSucceeds` | code_gen.cpp:96-100 | the list encodes when every value encodes |
| `CodeGen.EncodeValuesEach` | code_gen.cpp:96-100 | a `.word` list encodes exactly when each value does, and word j is `encode_word` of value j |
| `CodeGen.EncodeValueAt` | code_gen.cpp:96-100 | word j of a `.word` list is `encode_word` of value j |
| `CodeGen.TextNodeWords` | code_gen.cpp:80-92 | a TEXT instruction contributes its one encoded word to the instruction image |
| `CodeGen.DataNodeWords` | code_gen.cpp:93-101 | a DATA `.word` contributes its encoded values to the data image |
| `CodeGen.LayoutSplit` | code_gen.cpp:79-103 | laying out two stretches of nodes one after the other concatenates their words, and succeeds exactly when both do |
| `CodeGen.LayoutSizes` | code_gen.cpp:56-70 | the images have one word per counted instruction and per counted value |
| `CodeGen.LayoutSucceeds` | code_gen.cpp:79-103 | the layout succeeds exactly when every node's words do |
| `CodeGen.LayoutAt` | code_gen.cpp:79-103 | node i's words lie in each image right after the words of the nodes before it |
| `CodeGen.LayoutCons` | code_gen.cpp:79-103 | the first node's words come first |
| `CodeGen.NodeWords` | code_gen.cpp:79-103 | only a TEXT instruction or a DATA `.word` can fail; a node adds no word to an image it does not belong to (`CodeGen.NodeWordsShaped`) |
| `CodeGen.NodeWordsShaped` | code_gen.cpp:79-103 | a TEXT instruction gives one word, a DATA `.word` one word per value, and any other node none |
| `CodeGen.NodeWordsSucceed` | code_gen.cpp:79-103 | a node's words exist exactly when its instruction or each of its values encodes |
| `CodeGen.Pass2Before` | code_gen.cpp:79-103 | the nodes before i fill exactly the counted prefix of each image |
| `CodeGen.Pass2Fills` | code_gen.cpp:56-74 | the instruction image holds one word per TEXT instruction and the data image one word per DATA `.word` value: the sizes computed first are filled completely |
| `CodeGen.Pass2TextOrder` | code_gen.cpp:79-92 | the word after the instructions before node i is the encoding of instruction i at its own address: AST order |
| `CodeGen.Pass2DataOrder` | code_gen.cpp:93-101 | a `.word`'s encoded values lie in the data image right after the values of the nodes before it |
| `CodeGen.Pass2DataValue` | code_gen.cpp:96-100 | value j of that `.word` is the data word at that offset plus j |
| `CodeGen.Pass2Words` | code_gen.cpp:79-103 | the words of the two images exist exactly when every node's words do (`CodeGen.Pass2Fills`, `CodeGen.Pass2TextOrder` and `CodeGen.Pass2DataOrder` say where they go) |
| `CodeGen.Pass2Succeeds` | code_gen.cpp:79-103 | pass 2 succeeds exactly when every TEXT instruction and every DATA `.word` value encodes |
| `CodeGen.SerializeAppend` | code_gen.cpp:90-99 | appending a word appends its four bytes |
| `CodeGen.ImageSizes` | code_gen.cpp:56-70 | the sizing loop counts 4 bytes per TEXT instruction and 4 per DATA `.word` value |
| `CodeGen.WriteValues` | code_gen.cpp:96-100 | the loop writes each value's word at the data position and advances it by 4, or stops with the first error |
| `CodeGen.WriteNode` | code_gen.cpp:80-102 | one loop iteration of pass 2 appends the node's words to the two images and advances the positions |
| `CodeGen.Pass2` | code_gen.cpp:54-106 | returns fresh buffers holding the serialised words `Pass2Words` gives, or its error |
| `CodeGen.CountsSnoc` | code_gen.cpp:56-70 | the image counts grow by one instruction or one `.word`'s values per node |
| `CodeGen.PlacedKinds` | code_gen.cpp:20-36 | after pass 1, exactly the instructions go to the instruction image and exactly the `.word`s to the data image, with their values unchanged |
| `CodeGen.CountsAgree` | code_gen.cpp:15-48 | the counts pass 2 makes over the placed nodes equal the counters pass 1 keeps |
| `CodeGen.AddressIsImageOffset` | code_gen.cpp:20-36 | an instruction's address is its byte offset in the instruction image, and a `.word`'s address its byte offset in the data image (modulo 2^32) |
| `CodeGen.ImagesHoldEverything` | code_gen.cpp:56-70 | the images hold every instruction and every `.word` value of the program |
| `CodeGen.EncodedBranchResolves` | code_gen.cpp:155-157 | an encoded label reference names a bound label |
| `CodeGen.BranchesReachLabels` | code_gen.cpp:155-161 | each `beq` word in the instruction image sits at its address and jumps to the address of its label |
| `CodeGen.BranchPlaced` | code_gen.cpp:20-36 | pass 1 puts a `beq` in TEXT at its image offset, and all addresses involved are multiples of 4 |
| `CodeGen.BranchWordInImage` | code_gen.cpp:79-92 | the `beq` word pass 2 writes jumps to its label |
| `CodeGen.BranchWordTarget` | code_gen.cpp:155-161 | an encoded `beq` at an aligned address jumps to its aligned label |
| `CodeGen.WordLabelsResolve` | code_gen.cpp:180-188 | a `.word` value that is not a number is, in the data image, the address of the label node it names |
| `Assembler.Assemble` | src/assembler.cpp:15-21 | lexing, parsing and both passes give images made of whole words |
| `Assembler.Generate` | src/assembler.cpp:19-21 | pass 1 then pass 2 give images made of whole words |
| `Assembler.GenerateSucceeds` | src/assembler.cpp:19-21 | code generation succeeds exactly when no instruction is in DATA, no `.word` is in TEXT, no label repeats, and every placed instruction and `.word` value encodes |
| `Assembler.GeneratedSizes` | src/assembler.cpp:19-21 | the instruction image is 4 bytes per instruction of the program and the data image 4 bytes per `.word` value |
| `Assembler.GeneratedInstruction` | assembler.cpp:24-30 | the word read back at byte 4k of the instruction image, k being the number of instructions before node i, is the encoding of instruction i placed in TEXT at address 4k |
| `Assembler.InstructionPlaced` | code_gen.cpp:20-36 | instruction i is placed in TEXT at 4 × the number of instructions before it |
| `Assembler.GeneratedBranch` | assembler.cpp:24-30 | a `beq` word read back from the instruction image jumps to the address where pass 1 placed its label node |
| `Assembler.LabelOwner` | code_gen.cpp:29-31 | every bound name belongs to a label node and is bound to where that node was placed |
| `Assembler.GeneratedWordLabel` | assembler.cpp:36-42 | a `.word` value that is not a number is, read back from the data image, the address of the label node it names |
| `Assembler.DataWordLabel` | code_gen.cpp:93-101 | the same, for the serialised data words of pass 2 |

## Left out

- Reading the source file, command-line handling (`main.cpp`, `src/main.cpp`) and writing the
  images out: the `std::bitset` rendering of `assembler.cpp` and the template splicing of
  `src/utils.h` at the `###` marker line. They are I/O; the model stops at the two byte images,
  and the lemmas read their words back.
- `subs_token`, `Section::NONE`, `Node::label_name`, `Parser::parse_label` and
  `Parser::expect_number_or_label`: nothing in the core uses them.
- Error message text and the line numbers in messages: errors are kinds (`ParseErrorKind`,
  `GenError`, `SymbolError`). Tokens do carry the lexer's line count.
- The lexer stores C `char`s. The model uses Dafny `char` and the ASCII `<cctype>` classes of
  the "C" locale, so other locales and non-ASCII bytes are not modelled. An embedded `'\0'`
  ends the input for the lexer, in the source and in the model alike.
- `std::stoll` is modelled for base 0 with white space, sign, "0x"/octal/decimal prefixes and the
  `long long` range. Its locale handling is not modelled.
- `Parsing.Parser`: the C++ parser pulls tokens from a live `Lexer`. The model's parser reads
  them from the stream `Lexing.TokensFrom` builds, and `Lexing.NextTokenIsAt` shows that the two
  are the same tokens in the same order. The source has no other glue between lexer and parser.
- `CodeGen.Pass2` and `CodeGen.ImageSizes` require each image to be smaller than 4 GiB. The
  source's `uint32_t` sizes would wrap beyond that and its writes would go past the buffers.
- `CodeGen.WriteValues` takes the word encoder as a parameter instead of a symbol table. It is
  called only with `encode_word` over pass 1's table.
- `Encoding.BranchDistance`: the subtraction of two `int32_t` at code_gen.cpp:161 is signed
  overflow, which C++ leaves undefined. The model wraps it modulo 2^32, as the hardware does.
- A node built by the parser is never a bare `Node`, so the "Unknown instruction type" error of
  pass 2 (code_gen.cpp:87-88) cannot arise in the model's closed `Node` datatype.
