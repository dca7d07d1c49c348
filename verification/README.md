# A model of a two-pass RV32I assembler

This project models the core of a small two-pass assembler for a subset of
the RV32I base instruction set, and proves properties of that model. The
assembler turns lines of assembly text into 32-bit machine words. The first
pass (`parse_lines`) splits every line into an optional label, a mnemonic
and up to four operands. It gives each instruction the next word address
from `0x00400000`, and records labels in a growable symbol table. The second
pass (`encode_instruction`) looks the mnemonic up in a fixed instruction
table. It checks the operand count, the register names and the immediate
range, then packs the fields of one of the six formats (R, I, S, B, U, J)
into a word. A failure returns the sentinel `0xFFFFFFFF`.

The repository holds two copies of the same code: the single file
`compact-assembler/assembler.c`, and the headers under `include/`. They
agree except in `parse_line`. The compact copy cuts a `#` comment and trims
trailing white space before it tokenises; the header copy does neither. The
model has both, chosen by the `Parser.Dialect` parameter (`Compact` or
`Headers`). Everywhere else it cites whichever copy states the behaviour
most directly.

Modules, in dependency order:

- `Wrappers`: `Option` and `Result`.
- `Words`: fields packed into a word, least significant first, and
  sign extension. This is the bit-field union of `types.h`. The field
  layout follows the order in which the compiler allocates bit-fields on
  the little-endian targets the code is written for.
- `Types`: the program's records, the six encoding formats as datatypes,
  and the round trip between a format's fields and its word.
- `EncodingTable`: the register-name table and the instruction table,
  with their lookups.
- `SymbolTable`: the symbol table, both as a sequence with pure operations
  and as the `SymbolTable` class with the capacity-doubling array.
- `Text`: `ltrim`, `rtrim`, `strcspn` and `strncpy` on strings.
- `Immediate`: `parse_immediate`, which is `strtol` with base 0, narrowed to
  32 bits.
- `Encoder`: `encode_instruction`, one function per format, with lemmas
  that state exactly when each format succeeds and which bits of the word
  hold which operand.
- `Parser`: `is_label_only`, `strip_label`, `strtok` (as a function and as
  the `Tokenizer` class), `split_operands` and `parse_line`.
- `LineSyntax`: which lines `parse_line` reads back into the label,
  mnemonic and operands they were written from.
- `FirstPass`: `parse_lines`. The loop is stated as a function, as a
  line-by-line description of its outcome, and as the imperative loop over
  the symbol table class, and the model proves all three agree.

## Model

| member | source | states |
|---|---|---|
| Words.FieldAt | include/types.h:46-98 | each field of a packed word can be read back, reduced to its width |
| Words.UnpackPack | include/types.h:46-98 | unpacking a packed word gives back every field, truncated to its width |
| Words.PackUnpack | include/types.h:46-98 | every 32-bit word is the packing of its own fields |
| Words.SignExtendStore | include/types.h:56-62 | a value that fits an n-bit signed field is recovered by sign-extending what the field stores |
| Types.LayoutWidth | include/types.h:46-98 | the field widths of every format add up to 32 bits |
| Types.DecodeWord | include/types.h:46-98 | decoding a format's word gives its fields, each reduced to its width |
| Types.WordDecode | include/types.h:46-98 | every 32-bit word is the word of its decoding, in any format |
| Types.FieldOfWord | include/types.h:46-98 | field i of the word is field i of the record, reduced to its width |
| Types.OpcodeField | include/types.h:46-98 | the opcode is bits 0-6 of the word, in every format |
| Types.RLayout | include/types.h:47-54 | bit positions of opcode, rd, funct3, rs1, rs2 and funct7 in an R word |
| Types.ILayout | include/types.h:56-62 | bit positions of opcode, rd, funct3, rs1 and the 12-bit immediate in an I word |
| Types.SLayout | include/types.h:64-71 | bit positions of the two immediate pieces and the other fields in an S word |
| Types.BLayout | include/types.h:73-82 | bit positions of the four branch-offset pieces and the other fields in a B word |
| Types.ULayout | include/types.h:84-88 | the 20-bit upper immediate sits at bits 12-31 of a U word |
| Types.JLayout | include/types.h:90-97 | bit positions of the four jump-offset pieces and rd in a J word |
| Types.SSplit | include/encoder.h:217-218 | splitting a 12-bit immediate into bits 4:0 and 11:5 and joining them again restores it |
| Types.BScramble | include/encoder.h:257-260 | the B-format split of an even offset in [-4096, 4094] reassembles to that offset |
| Types.JScramble | include/encoder.h:338-341 | the J-format split of an even offset in [-1048576, 1048574] reassembles to that offset |
| EncodingTable.RegisterNumber | include/encoding_table.h:48-53 | -1 exactly when no row of the register table has the name |
| EncodingTable.RegisterFrom | include/encoding_table.h:49-52 | the scan from row i finds the first matching row at or after i, or returns -1 when there is none |
| EncodingTable.AbiNameNumber | include/encoding_table.h:13-46 | every x-name and ABI name of a register reads back as that register's number and kind |
| EncodingTable.AbiNameUnique | include/encoding_table.h:13-46 | a register name spelled in the ABI scheme is the one name of its kind for its number |
| EncodingTable.AllRowsFit | include/encoding_table.h:13-46 | every row of the register table pairs a name with the number the ABI gives it |
| EncodingTable.RegisterTableIsAbi | include/encoding_table.h:13-46 | the table lists exactly the ABI names: each row agrees with the ABI and each ABI name has a row |
| EncodingTable.RegisterNumberIsAbi | compact-assembler/assembler.c:310-315 | the lookup returns the ABI number of a valid name and -1 for any other string |
| EncodingTable.RegisterNumberRange | include/encoding_table.h:13-46 | every lookup result is -1 or a register number 0-31 |
| EncodingTable.RegisterNames | include/encoding_table.h:13-46 | every register 0-31 is found under its x-name and under its ABI name |
| EncodingTable.FramePointer | include/encoding_table.h:22 | s0, fp and x8 all name register 8 |
| EncodingTable.FindInstruction | include/encoding_table.h:86-91 | no entry exactly when no row has the mnemonic; otherwise a table row with that mnemonic |
| EncodingTable.InstructionFrom | include/encoding_table.h:87-90 | the scan from row i finds the first row at or after i with the mnemonic, or none |
| EncodingTable.InstructionTableIsIsa | include/encoding_table.h:63-84 | each row's format, opcode, funct3 and funct7 are those the RV32I base ISA gives its mnemonic |
| EncodingTable.TableFieldsFit | include/encoding_table.h:63-84 | every row's opcode, funct3 and funct7 fit their 7, 3 and 7 bits |
| EncodingTable.FindInstructionIsIsa | include/encoding_table.h:86-91 | whatever the lookup finds is the RV32I encoding of that mnemonic |
| EncodingTable.UnlistedInstructions | include/encoding_table.h:63-84 | srai, lb, lh, lbu and lhu are RV32I instructions the table does not hold, so lookup fails for them |
| EncodingTable.RegisterRegisterRows | include/encoding_table.h:64-68 | the first five rows are R-format with opcode 0x33, and sub is add with funct7 0x20 |
| SymbolTable.Find | include/symbol_table.h:47-53 | no address exactly when no entry has the name; otherwise the address of the first entry with it |
| SymbolTable.AddressOf | compact-assembler/assembler.c:255-261 | -1 exactly when the name is absent, else the address `Find` gives |
| SymbolTable.AddSymbol | include/symbol_table.h:25-44 | refused exactly when the name is already present; otherwise the table with the new entry at its end |
| SymbolTable.FindAppend | include/symbol_table.h:41-43 | after an append, a name is found where it was before, or at the new entry if it was absent |
| SymbolTable.AddSymbolFound | include/symbol_table.h:25-53 | a successful add keeps names unique, finds the new name at its address and leaves every other name's lookup unchanged |
| SymbolTable.FindFirst | include/symbol_table.h:48-50 | an entry whose name does not occur earlier is the one lookup finds |
| SymbolTable.SymbolTable.constructor | include/symbol_table.h:10-15 | a new table is empty, with the initial capacity of 8 |
| SymbolTable.SymbolTable.Add | include/symbol_table.h:25-44 | the contents change as `AddSymbol` says; capacity doubles when the array was full; a refusal changes nothing |
| SymbolTable.SymbolTable.Grow | include/symbol_table.h:34-39 | a new array of twice the capacity, holding the same symbols |
| SymbolTable.SymbolTable.Append | include/symbol_table.h:41-43 | the symbols become the old ones plus the new entry, in the same array |
| SymbolTable.SymbolTable.Lookup | include/symbol_table.h:47-53 | the loop returns the address of the first entry with the name, or -1 |
| Text.TrimLeft | compact-assembler/assembler.c:133-136 | the result is a suffix of the input that does not start with white space |
| Text.TrimLeftSuffix | compact-assembler/assembler.c:133-136 | what `ltrim` drops is all white space, and what it keeps is the rest of the input |
| Text.TrimLeftSkipsSpace | compact-assembler/assembler.c:133-136 | leading white space makes no difference to `ltrim` |
| Text.TrimRight | compact-assembler/assembler.c:139-147 | a prefix of the input followed only by white space, and not ending in white space |
| Text.TrimRightSkipsSpace | compact-assembler/assembler.c:139-147 | trailing white space makes no difference to `rtrim` |
| Text.Strcspn | include/encoder.h:106 | the longest prefix free of rejected characters; where it stops there is a rejected character |
| Text.StrcspnStops | include/encoder.h:106 | any span that meets those conditions is what `strcspn` returns |
| Text.Prefix | include/parser.h:39-40 | `strncpy` into a bounded buffer keeps the first n characters, or all of a shorter string |
| Immediate.ParseImmediate | include/encoder.h:21-35 | an accepted immediate is a 32-bit signed value, and the text ends in a digit |
| Immediate.ToInt32 | include/encoder.h:34 | the cast to `int32_t` gives the signed 32-bit value congruent modulo 2^32, which is the value itself when it fits |
| Immediate.ClampLong | include/encoder.h:27 | `strtol` saturates at the 64-bit `long` range and changes nothing inside it |
| Immediate.DecimalRoundTrip | compact-assembler/assembler.c:356-369 | every 32-bit value written in decimal, with '-' when negative, parses back to itself |
| Immediate.HexRoundTrip | include/encoder.h:27-34 | "0x" followed by the hex digits of any 32-bit pattern parses to that pattern as a signed 32-bit value |
| Immediate.OctalRoundTrip | include/encoder.h:27-32 | a leading 0 makes the digits octal, as base 0 of `strtol` does |
| Immediate.LeadingZeroDecimal | include/encoder.h:27-32 | a leading 0 before the digits 8 or 9 is rejected, since those are not octal digits |
| Immediate.BinaryPrefixRejected | include/encoder.h:27-32 | text starting with "0b" is rejected, as `strtol` before C23 stops at the `b` |
| Immediate.LeadingSpaceSkipped | include/encoder.h:27-32 | leading white space does not change the result |
| Immediate.TrailingTextRejected | include/encoder.h:27-32 | a text that ends in anything but a digit of its base is rejected |
| Encoder.MemOperand | include/encoder.h:106 | an `imm(reg)` operand splits into an offset before '(' and a base of at most 7 characters before ')' |
| Encoder.MemOperandOf | include/encoder.h:106 | any offset, '(', base and optional ')' text is split back into that offset and base |
| Encoder.ShiftImmediate | include/encoder.h:120-134 | a shift amount is accepted exactly when it is 0-31; the immediate field is then funct7 above the amount |
| Encoder.ShiftFunct7 | include/encoder.h:131-132 | the funct7 of a shift fits 7 bits |
| Encoder.ResolveTarget | include/encoder.h:229-240 | a known label gives label address minus pc; an unknown one is parsed as a number; the text "-1" gives -1 minus pc |
| Encoder.Encode | include/encoder.h:46-55 | fails as an unknown mnemonic exactly when the table lacks it; a success has the format and opcode of its row |
| Encoder.EncodeWith | include/encoder.h:68-347 | a success has the row's format and opcode, and no failure is an unknown mnemonic |
| Encoder.EncodeInstruction | include/encoder.h:46-351 | the word is the sentinel exactly when encoding fails |
| Encoder.EncodeR | include/encoder.h:69-90 | an R success has the R format and the row's opcode |
| Encoder.EncodeI | include/encoder.h:92-187 | an I success has the I format and the row's opcode |
| Encoder.FinishI | include/encoder.h:171-186 | fails only with an invalid operand or an immediate out of range |
| Encoder.EncodeS | include/encoder.h:189-219 | an S success has the S format and the row's opcode |
| Encoder.EncodeB | include/encoder.h:221-261 | a B success has the B format and the row's opcode |
| Encoder.EncodeU | include/encoder.h:263-292 | a U success has the U format and the row's opcode |
| Encoder.EncodeJ | include/encoder.h:294-342 | a J success has the J format and the row's opcode |
| Encoder.JumpTo | include/encoder.h:308-341 | the J tail after the operand count: a success has the J format and the row's opcode |
| Encoder.REncoding | include/encoder.h:69-90 | succeeds exactly with three valid registers; the word holds opcode, funct3, funct7 and rd, rs1, rs2 in place |
| Encoder.LoadEncoding | include/encoder.h:96-112 | succeeds exactly with `rd, imm(rs1)`, valid registers and a 12-bit offset; the word holds them in place |
| Encoder.ShiftEncoding | include/encoder.h:113-138 | succeeds exactly with two registers and an amount 0-31; the word holds the amount at bits 20-24 and funct7 above it |
| Encoder.IArithmeticEncoding | include/encoder.h:161-187 | succeeds exactly with two registers and an immediate in [-2048, 2047]; the word holds each in place |
| Encoder.JalrRegisterEncoding | include/encoder.h:145-148 | `jalr rd, rs1` succeeds exactly with two valid registers, and the offset is 0 |
| Encoder.JalrMemoryEncoding | include/encoder.h:149-155 | `jalr rd, imm(rs1), x` succeeds exactly when the registers and the 12-bit offset of its second operand are valid |
| Encoder.JalrImmediateEncoding | include/encoder.h:156-159 | `jalr rd, rs1, imm` succeeds exactly with valid registers and a 12-bit immediate |
| Encoder.FinishIEncoding | include/encoder.h:171-186 | the shared I checks pass exactly when rd, rs1 and the immediate are valid; the word holds them in place |
| Encoder.SEncoding | include/encoder.h:189-219 | succeeds exactly with `rs2, imm(rs1)`, valid registers and a 12-bit offset; the word holds the offset split in two |
| Encoder.BEncoding | include/encoder.h:221-261 | succeeds exactly with two valid registers and an even target offset in [-4096, 4094]; the word reads back that offset |
| Encoder.UEncoding | include/encoder.h:263-292 | succeeds exactly with a valid register and an immediate 0-0xFFFFF; the word holds it at bits 12-31 |
| Encoder.JEncoding | include/encoder.h:294-342 | succeeds exactly with one or two operands, a valid rd if given, and an even offset in range; rd defaults to ra |
| Encoder.JAccepted | include/encoder.h:320-341 | with the offset resolved, a J encoding succeeds exactly when rd is valid and the offset is even and in range |
| Encoder.OperandCountChecked | include/encoder.h:68-298 | the operand-count error is raised exactly when the count is not one the format allows |
| Encoder.BranchToLabel | include/encoder.h:229-260 | a branch to a known label lands on the label: pc plus the word's offset is the label's address |
| Encoder.JumpToLabel | include/encoder.h:308-341 | a jump to a known label lands on the label: pc plus the word's offset is the label's address |
| Encoder.MinusOneBranch | include/encoder.h:229-251 | a branch to the text "-1" from an even pc always fails, because the offset is odd |
| Encoder.OddBranch | include/encoder.h:229-251 | a branch whose resolved offset is odd always fails |
| Encoder.MinusOneJump | include/encoder.h:308-329 | a jump to the text "-1" from an even pc always fails |
| Encoder.OddJump | include/encoder.h:308-329 | a jump whose resolved offset is odd always fails |
| Encoder.NotSentinel | include/encoder.h:10 | no word whose opcode is below 0x7F is the error sentinel |
| Encoder.SentinelOpcode | include/encoder.h:10 | the sentinel's opcode bits are 0x7F, which no table row uses |
| Encoder.IWord | include/encoder.h:184-186 | the I word's immediate reads back as the stored value |
| Encoder.SWord | include/encoder.h:217-218 | the S word's two pieces read back as the stored immediate |
| Encoder.BWord | include/encoder.h:257-260 | the B word's four pieces read back as the stored offset |
| Encoder.UWord | include/encoder.h:289-291 | the U word's upper bits read back as the stored immediate |
| Encoder.JWord | include/encoder.h:338-341 | the J word's four pieces read back as the stored offset |
| Parser.StripLabel | include/parser.h:16-20 | removes exactly the final ':' of a label-only token and leaves any other token unchanged |
| Parser.Strtok | include/parser.h:42-57 | a token is a non-empty run free of delimiters, taken after the delimiters that precede it |
| Parser.StrtokNone | include/parser.h:42-57 | there is no token exactly when only delimiters remain |
| Parser.StrtokOf | include/parser.h:42-57 | the token is the first delimiter-free run, and the scan resumes after the delimiter that ends it |
| Parser.Tokenizer.constructor | include/parser.h:42 | tokenising starts at the beginning of the text |
| Parser.Tokenizer.Next | include/parser.h:42-57 | each call returns `Strtok` from the saved position and saves where it stopped |
| Parser.FirstFour | include/types.h:38 | at most four operands are kept, as a prefix of those written |
| Parser.Operands | include/parser.h:23-31 | at most four operands |
| Parser.SplitOperands | include/parser.h:23-31 | the loop fills the array with `Operands` of the text and leaves the rest of the array unchanged |
| Parser.CutComment | compact-assembler/assembler.c:702-704 | everything before the first '#', or the whole line when it has none |
| Parser.RightTrim | compact-assembler/assembler.c:139-147 | the loop computes `TrimRight` |
| Parser.LineBuffer | compact-assembler/assembler.c:698-705 | the working copy of a line fits the 256-byte buffer |
| Parser.ParsedLine | compact-assembler/assembler.c:694-728 | the result fits the instruction record, carries the line number, and has no operands without a mnemonic |
| Parser.Finish | include/parser.h:50-62 | the mnemonic is empty exactly when no second token was found, and then there are no operands |
| Parser.ParseLine | include/parser.h:34-63 | the imperative `parse_line`, with its tokeniser and operand array, computes `ParsedLine` |
| LineSyntax.ParseRendered | compact-assembler/assembler.c:694-728 | a line written as `label: mnemonic op, op` reads back as that label, mnemonic and its first four operands, in both copies |
| LineSyntax.OperandsOfJoin | include/parser.h:23-31 | operands joined by ", " split back into the first four of them |
| LineSyntax.TokensOfJoin | include/parser.h:23-31 | `strtok` on ',' splits joined operands at the commas |
| LineSyntax.RenderBuffer | compact-assembler/assembler.c:698-705 | a written line is its own working copy: nothing is cut or trimmed |
| LineSyntax.CommentIgnored | compact-assembler/assembler.c:702-705 | appending a '#' comment to a line does not change what the compact `parse_line` returns |
| LineSyntax.TrailingSpaceIgnored | compact-assembler/assembler.c:705 | trailing white space does not change what the compact `parse_line` returns |
| LineSyntax.CommentedLabelLine | compact-assembler/assembler.c:694-728 | "a: #" reads as the label a with an empty mnemonic |
| FirstPass.Instructions | include/parser.h:73-98 | one instruction per line that is not a bare label |
| FirstPass.Labels | include/parser.h:87-96 | at most one symbol per instruction |
| FirstPass.LabelsAppend | include/parser.h:87-96 | an instruction adds its own label, if it has one, at the end |
| FirstPass.LabelListed | include/parser.h:87-96 | every labelled instruction's label is listed at its address |
| FirstPass.InstructionAddress | include/parser.h:84 | instruction k is at address 0x00400000 + 4k |
| FirstPass.AddableStep | include/parser.h:89-95 | adding one more label succeeds exactly when it keeps the names distinct, and appends it |
| FirstPass.ScanMatches | include/parser.h:73-99 | the loop fails exactly on a repeated label; otherwise it holds the line-by-line instructions, their labels and the pending label |
| FirstPass.PassMatches | include/parser.h:66-109 | the first pass fails exactly when a label is defined twice; otherwise it returns every instruction and adds every label in order |
| FirstPass.ScanStops | include/symbol_table.h:27-31 | once a duplicate label stops the loop, the whole pass fails |
| FirstPass.InstructionKept | include/parser.h:73-99 | later lines never change an instruction already emitted |
| FirstPass.FoundAfter | include/symbol_table.h:47-53 | every label the pass adds is found at its own address |
| FirstPass.DefinedFound | include/parser.h:87-105 | after a successful pass every label is found at the address the pass gave it |
| FirstPass.PassAddresses | include/parser.h:83-98 | the k-th instruction is at address 0x00400000 + 4k, and its label is found at that address |
| FirstPass.LabelNamesNext | include/parser.h:77-91 | a bare label names the instruction on the next line, and is found at its address |
| FirstPass.TrailingLabelFound | include/parser.h:102-105 | a bare label on the last line is found at the address after the last instruction |
| FirstPass.LastLabelKept | include/parser.h:77-81 | of two bare labels in a row only the second is kept |
| FirstPass.CommentedLabelEmits | compact-assembler/assembler.c:738-763 | "a: #" is not label-only, so it becomes an instruction with an empty mnemonic at the base address, labelled a |
| FirstPass.TraceScan | include/parser.h:73-99 | the states the imperative loop goes through are those of `Scan` |
| FirstPass.StuckFails | include/parser.h:89-95 | when the loop stops on a repeated label, the first pass fails |
| FirstPass.EmitLine | include/parser.h:83-98 | one instruction line: it extends the loop's trace, or stops it on a repeated label |
| FirstPass.ScanLines | include/parser.h:73-99 | the imperative loop ends in the state `Scan` describes, or stops where `Scan` fails |
| FirstPass.ParseLines | compact-assembler/assembler.c:731-774 | the imperative `parse_lines` over the symbol table class computes `FirstPass` |
| FirstPass.AddPending | include/parser.h:102-105 | a label left pending after the loop goes in at the address after the last instruction |

## Left out

- Reading the source file (`read_file_lines`), `main`, the listing and dump output, freeing memory, the diagnostic messages, and the exit on a failed `malloc` or `realloc`. The model starts from the list of lines that reading produces.
- A NULL operand string or a NULL instruction pointer passed to `parse_immediate` or `encode_instruction`. The C code guards against these; the model's strings are never missing.
- `strtok`'s writes of NUL bytes into the line buffer. `Parser.Tokenizer` keeps the saved position instead, which is all later calls observe.
- Addresses and line numbers are unbounded naturals. The wrap-around of a `uint32_t` address after 2^30 instructions is not modelled.
- Encoder.ResolveTarget: computes `label address - pc` on unbounded integers, not in the C code's 32-bit arithmetic, which could only differ for addresses beyond 2^31.
- The symbol-table lookup returns -1 for a missing label in the C code. The model returns `None` from `SymbolTable.Find`, with `SymbolTable.AddressOf` giving the -1 form. The encoder uses the -1 form, so a label literally written as "-1" behaves as the C code does (`Encoder.MinusOneBranch`, `Encoder.MinusOneJump`).
- `FirstPass` is stated for any line reader; the assembler's reader is `ReaderOf(dialect)`, the model of `parse_line`. `FirstPass.ScanLines`, `FirstPass.EmitLine` and `FirstPass.AddPending` are the loop, one loop body and the tail of the C `parse_lines`, split into three methods. `SymbolTable.SymbolTable.Grow` and `Append` are the two halves of `symbol_table_add`. `Encoder.JumpTo` is the second half of the J case.
- Immediate.ParseImmediate: follows `strtol` as C17 and earlier define it. Under C23, which recent compilers and C libraries use by default, base 0 also reads a binary number after `0b` or `0B`. The model rejects such text instead (`Immediate.BinaryPrefixRejected`), so a C23 build would accept `addi x1, x0, 0b101` where the model reports an invalid operand.
- `long` is taken to be 64 bits wide, as on LP64 targets, so `strtol` saturates at ±2^63 (`Immediate.ClampLong`). Where `long` has 32 bits, "0x80000000" and above would saturate to 0x7FFFFFFF, and `Immediate.HexRoundTrip` would not hold for the upper half of the 32-bit patterns.
- The word the C code returns is read through a union of bit-fields. The model fixes the field order to the allocation little-endian compilers use, lowest field first.

Behaviours of the code that a reader might not expect, all of which the model keeps:

- Branches and jumps resolve their target before checking the register names. A branch with both a bad register and an unresolvable target fails with the target's error.
- Immediates go through `strtol` with base 0. Octal (a leading 0), leading white space and a leading '+' are therefore accepted, not only decimal and "0x" hex. The model follows `strtol` as C17 and earlier define it; a build with C23 semantics also accepts "0b" binary, which the model rejects.
- Operands beyond the fourth are dropped without an error.
- The `imm(reg)` operand is read with `sscanf`, which accepts a missing ')' and ignores text after it.
- `srai` has a branch in the encoder, but no row in the instruction table. It therefore fails as an unknown mnemonic.
- A token such as `loop:addi` with no blank after the colon is taken whole as the label name.
- The header copy of `parse_line` neither removes comments nor trims trailing white space.
- `is_label_only` is applied to the line as read, before `parse_line` removes the comment. So a label followed by a comment, or by trailing blanks, becomes an instruction with an empty mnemonic that takes up an address (`FirstPass.CommentedLabelEmits`).
- `include/types.h` declares the union without the `word` member that `compact-assembler/assembler.c:122` has and that the encoder returns.
