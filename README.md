# abyss: a verified model of the terminal debugger's panes and update step

abyss is a terminal front end for the Delve debugger. Each time it handles a
message it polls the debug server. It then draws three panes: the disassembly
around the program counter, the register list and a 256-byte window of the
stack. Values that changed since the previous poll are emphasized. This project
models the logic of `main.go` that turns debugger replies into pane rows and
model state, and proves what those rows and that state are:

- `Fmt` models the `fmt` verbs the program uses (`%X`, `%02X`, `%-Ns`,
  `%Ns`), `strings.ToUpper`, `strings.HasPrefix` and uint64 wrap-around.
  A rendered row is `Line(text, emphasized)`, where the flag stands for the
  lipgloss bold and colour style.
- `Strconv` models `strconv.ParseUint(s, 16, 64)`. It is proved against a
  reference definition of the value of a hexadecimal string, and proved to
  round-trip with `%X`.
- `Disasm` models `reformatasm` and the part of `disassembly` that follows
  the server call:
  - the requested address range
  - the reversed opcode column
  - function-name headings
  - dropping one leading blank row and capping at `maxlines`

  The loop is proved against `Listing`, a specification of the rows as
  entries (gap, heading, instruction). Lemmas place every instruction in it.
- `StackPane` models `stack`. Its loop fills two 8-byte buffers by index
  and is proved against `WordLine`: one row per complete word, showing the
  address, then the word with its bytes reversed, emphasized when the word
  differs from its baseline. Lemmas show that a printed word reads back as
  the little-endian value of its bytes, and that an address reads back as the
  wrapped address.
- `RegisterPane` models `registers`: the row layout, the positional diff
  against the previous list, and the fact that the shown digits parse to the
  register's value.
- `Stepper` models `stepInstruction`. The scan for the first instruction at
  the PC decides whether a step-out follows the step.
- `Ui` models the `model` type as a class. `Update` dispatches the key,
  records window sizes, and rotates the current registers and stack window
  into the previous ones. It reads the stack pointer from the second
  register and then reads the 256-byte window there.

The debug server's replies are plain inputs:
- the instruction records of `DisassemblePC` / `DisassembleRange`
- the register list of `ListScopeRegisters`
- target memory, as a map from addresses to bytes, for `ExamineMemory`

The step requests are returned as a sequence of commands.

The model follows the code on these points:
- On the first poll, each stack word is compared against eight zero bytes,
  so every non-zero word is emphasized.
- A non-empty previous stack window or register list that is shorter than
  the current one makes the code index out of range. The model makes that a
  precondition.
- Stack words print as 16 contiguous hexadecimal digits.
- Register values keep the leading zeros the server sends.
- Instruction addresses are `%-16X`: left-aligned and padded with spaces.
- A trailing partial 8-byte group of the stack window prints only its
  address, with no word and no newline. `StackPane.Stack` returns that text
  as `tail`.

## Model

| member | source | states |
|---|---|---|
| Fmt.PadRight | main.go:217 | `%-Ns` keeps the text whole as a prefix and fills with spaces up to width N |
| Fmt.PadLeft | main.go:247 | `%Ns` ends with the whole text, spaces before it up to width N; never truncates |
| Fmt.Hex2 | main.go:207 | `%02X` of a byte is exactly two upper-case digits, high nibble first |
| Strconv.Hex2Value | main.go:207 | the two digits of `%02X` denote exactly the byte printed |
| Fmt.HexDigits | main.go:166 | `%X` prints only upper-case hex digits, with a leading zero only for the value zero |
| Fmt.HexLengthU64 | main.go:217 | every uint64 prints in at most 16 digits, so the `%-16X` address column never overflows |
| Fmt.HexBytesAt | main.go:176 | `%02X` of a byte array prints byte j at columns 2j and 2j+1, with no separator |
| Fmt.ToUpper | main.go:247 | upper-casing keeps the length, turns each lower-case letter into its upper-case letter and keeps every other character |
| Fmt.ToUpperDrop | main.go:247 | upper-casing then dropping two characters equals dropping then upper-casing |
| Strconv.ParseHexU64 | main.go:94 | `ParseUint(s, 16, 64)` succeeds exactly on non-empty digit strings whose value is below 2^64 and returns that value; otherwise a syntax error, or a range error on overflow, whichever comes first |
| Strconv.HexRoundTrip | main.go:94 | parsing the `%X` text of any uint64 returns that number |
| Strconv.ParseHexU64Upper | main.go:94 | base-16 parsing gives the same result on the upper-cased text |
| Disasm.RequestRange | main.go:190-194 | the range is PC ∓ 4·(maxlines/2) with uint64 wrap-around, at most 2·maxlines bytes on each side |
| Disasm.FirstSpace | main.go:230 | the index of the first space, or the length when there is none |
| Disasm.ReformatAsm | main.go:229-236 | text without a space is unchanged; otherwise the first token, spaces to column 6, one space, the untouched rest |
| Disasm.ReformatAsmRoundTrip | main.go:229-236 | the padding can be taken out again: `reformatasm` loses no text |
| Disasm.Opcodes | main.go:205-208 | the opcode column has three characters per byte |
| Disasm.OpcodesAt | main.go:205-208 | the k-th `%02X ` group of the opcode column is byte n-1-k: bytes print last first |
| Disasm.FormatOpcodes | main.go:205-208 | the count-down loop builds exactly the reversed opcode column |
| Disasm.InstructionLineColumns | main.go:209-217 | address in columns 0-15, opcodes of up to six bytes in 17-34, mnemonic from 36 |
| Disasm.InstructionLine | main.go:217 | an instruction line is at least 66 characters, so never blank, and emphasized exactly at the PC |
| Disasm.FormatInstruction | main.go:205-217 | one loop iteration's instruction line, with "?" shown as empty text |
| Disasm.Chunk | main.go:200-217 | an iteration adds three rows when a heading is due (a blank gap, the function name, the instruction), else only the instruction |
| Disasm.Listing | main.go:199-218 | the listing has one row per instruction plus two per heading |
| Disasm.LastFunctionIsLatestName | main.go:198-204 | the remembered function is the name of the latest instruction that has one, or empty when none has |
| Disasm.ListingAt | main.go:199-218 | instruction k is at row k + 2·(headings so far); a gap and its function name come right before it when it opens a heading |
| Disasm.ListingStart | main.go:199-204 | the listing opens with a gap and the first function's heading when the first instruction has a function, else with that instruction |
| Disasm.FirstRow | main.go:219-221 | the first row is blank exactly when it is the gap before a heading, and the heading follows it |
| Disasm.FormatChunk | main.go:200-217 | one iteration renders exactly its chunk of the listing |
| Disasm.ListingLines | main.go:197-218 | the loop renders the whole listing, row for row |
| Disasm.Trimmed | main.go:219-224 | a blank first row is dropped, then the next Min(maxlines, rows left) rows are kept in order |
| Disasm.TrimmedRendering | main.go:219-224 | dropping a blank first row and capping keeps the next Min(maxlines, rows left) rows after the gap; a gap followed by text leaves no blank first row |
| Disasm.TrimmedListing | main.go:219-224 | the same for the listing: the leading gap is skipped and, when no function name is empty, the pane does not open blank |
| Disasm.Disassembly | main.go:186-227 | the pane shows the listing after its leading gap, row for row, Min(maxlines, rows) of them, never more than maxlines |
| StackPane.Word | main.go:164-170 | a word is eight consecutive bytes of the window |
| StackPane.Baseline | main.go:171-173 | a word is compared with the previous window at the same offset, or with zeros when there is none |
| StackPane.FirstPollChanged | main.go:171-177 | on the first poll a word is emphasized exactly when one of its bytes is non-zero |
| StackPane.WordText | main.go:176 | a word prints as two digits per byte |
| StackPane.WordTextAt | main.go:169-176 | byte j of a word prints at columns 2(7-j) and 2(7-j)+1: the last byte read comes first |
| StackPane.WordTextValue | main.go:176 | a printed word is 16 digits that parse, as a uint64, to the little-endian value of the word |
| StackPane.AddressTextValue | main.go:165-167 | the address column is at most 16 digits that parse back to `stackaddr+offset` modulo 2^64, then four spaces |
| StackPane.WordsInBuffers | main.go:169-178 | after eight bytes the buffers hold the word and its baseline reversed; they differ exactly when the word changed |
| StackPane.Stack | main.go:158-184 | heading, then for every complete word its address, its reversed bytes and whether it changed; a trailing partial word leaves only its address |
| RegisterPane.ShownValue | main.go:247 | the shown value is the upper-cased value after its first two characters |
| RegisterPane.RegisterTextLayout | main.go:247 | a register row is the name right-aligned to width three (never cut), one space, then the value digits upper-cased with leading zeros kept |
| RegisterPane.ShownValueParses | main.go:247 | the shown digits parse to the same number as the value after "0x" |
| RegisterPane.RegisterTextExample | main.go:247 | "0x00c0" shows as "00C0"; register SP with that value prints " SP 00C0" |
| RegisterPane.Registers | main.go:238-253 | heading, then one row per register in order, emphasized exactly when a previous list exists and has the same name and another value at that position |
| Stepper.StepOver | main.go:139-155 | one step-instruction, then a step-out exactly when the first instruction at the PC starts with "CALL " |
| Stepper.FirstAtPcDecides | main.go:140-146 | only the first instruction at the PC decides; later ones play no part |
| Stepper.NoPcNoStepOut | main.go:140-147 | with no instruction at the PC, nothing is stepped out of |
| Stepper.CallPrefixExamples | main.go:142 | "CALL main.f(SB)" is a call; "CALL" without its space is not; a non-call first at the PC shadows a later call |
| Ui.StackPointer | main.go:94-95 | the stack pointer is read exactly when the second register's value after two characters is a non-empty digit string below 2^64; it is that value, and the register pane shows the same digits |
| Ui.KeyCommands | main.go:72-81 | "s" and "i" step one instruction, "o" and a "s" over a call at the PC step out, the step coming first; every other message issues nothing |
| Ui.Window | main.go:99 | the window read at the stack pointer is 256 bytes |
| Ui.Model.constructor | main.go:43-45 | the program starts from the zero model |
| Ui.Model.Poll | main.go:86-101 | registers rotate; the stack pointer is parsed from the second register; the stack window rotates and is read there; each failure ends in the panic it causes |
| Ui.Model.Update | main.go:69-103 | "ctrl+c"/"q" quit and change nothing; "s", "i" and "o" issue step-over, step-instruction and step-out; a resize records the size; every other message polls |

## Left out

- `main` (main.go:21-52) starts `dlv`, sleeps and connects over the network. This is process and network glue.
- The Delve RPC calls are not modelled. Their replies are inputs to the model, and step requests are returned as commands:
  - `GetState`, `ListScopeRegisters`, `ExamineMemory`, `DisassemblePC`, `DisassembleRange`
  - `StepInstruction`, `StepOut`
- Connection and server errors are not modelled. `must` turns errors of `GetState`, `ListScopeRegisters`, `DisassemblePC` and `DisassembleRange` into a panic, and so does `stepInstruction` (main.go:132-154) for its server and step errors. The "i" and "o" keys (main.go:78, 80) discard the result and error of `StepInstruction` and `StepOut`, so a failed step there does not stop the poll.
- An unreadable stack window and a bad stack pointer are modelled, as `Panic` outcomes of `Update`.
- `View` and the lipgloss layout (main.go:105-130) are terminal rendering: pane widths, heights and `JoinHorizontal`.
- Emphasis is one flag per row. The source styles only the stack word, the mnemonic or the register row. ANSI escape sequences and their effect on `%-30s` padding are not modelled. The padding is applied to the plain mnemonic text.
- `must` (main.go:339-344) logs and panics. Its failures are either preconditions or the `Panic` outcome of `Update`.
- `dump`, `dummytext`, `Init` and the bubbletea program loop are debugging output, dead fixtures and framework plumbing. main_test.go asserts nothing.
- Fmt.ToUpper: only ASCII letters are upper-cased. Register names and hexadecimal values are ASCII.
- StackPane.Stack: a non-empty previous window shorter than the current one is a precondition, because the source indexes out of range there and panics.
- RegisterPane.Registers: a non-empty previous list shorter than the current one is a precondition, because the source panics there. So is a value shorter than the two characters it drops.
- Disasm.Disassembly: `maxlines` is a natural number; a negative window height is not modelled.
- Disasm.RequestRange: the closed form is stated for heights below 2^63 only. A larger height wraps in `4*(uint64(maxlines)/2)` and is only computed, not characterised.
- Target memory is a map from addresses to bytes. In the model, `ExamineMemory(sp, 256)` succeeds exactly when all 256 addresses are in the map. What the server does on a partial read is not modelled.
