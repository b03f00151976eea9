# stack_based_processor in Dafny

A model of the toolchain of a small stack machine: an assembler that turns
source lines into a binary file, a processor that runs that file, and a
disassembler that lists it back as source. The repository holds two
revisions of these tools.

- The current revision is under `src/`. Its opcode byte is `(opcode << 2) | mode`,
  where the two low bits select an addressing mode. It has 24 commands:
  - conditional jumps;
  - `END`, `ABORT`, `JMP`, `CALL`, `RET`;
  - `PUSH`, `POP`, `MOVE`, `DUP`, `VSET`, `VGET`;
  - arithmetic;
  - console commands.
- The earlier revision is at the top level (`assembler.cpp`, `processor.cpp`,
  `disasm.cpp`) and in `lib/cmds/`. Its opcode byte is the plain opcode. It
  also has register (`RGET`, `RSET`) and RAM (`MSET`, `MGET`) commands.

Both revisions share the protected stack of `lib/stackworks.h`, the line
splitter of `lib/file_proc.cpp`, and the file header.

## Modules

| module | what it models |
|---|---|
| `CLib`, `CInt` | C `char` values, `int` and `long long` wrap-around, truncating division, little-endian `int` fields, bitwise OR on `int` |
| `CFormat` | the `sscanf` conversions the tools use: `%d` (with `strtol` saturation), `%s`, `%n`, literal characters and blanks |
| `StackWorks` | the canary- and hash-protected stack: status flags, init, destroy, push, pop, get, resize |
| `FileProc` | `parse_lines`: the NUL-separated buffer and the start of every line |
| `ArgWorks` | `read_pparg` (longest matching operand form), `link_argument`, the packing of register-indexed operands, and the disassembler's operand text |
| `ProcCmd` | the current command list, opcodes, hash table and opcode byte |
| `Labels` | the label table (`add_label`, `get_label`) and its two-pass behaviour |
| `Header` | `put_header` and `read_header` |
| `Assembler` | the current `process_line` and the two `assemble` passes |
| `Machine` | the current processor: state, every command, the run loop, `draw_vmd` |
| `MachineLaws` | how the current commands combine |
| `Disasm` | the current disassembler |
| `Reassembly` | disassembling and then assembling again gives back the same file |
| `Pipeline` | an assembled jump to a label lands on that label |
| `LegacyCmd`, `LegacyMachine`, `LegacyAsm`, `LegacyDisasm` | the earlier revision's command list, processor, assembler and disassembler |

## Parameters

Some things that are fixed at build time, or outside the repository, are
parameters of the model.

- **Hash.** `get_hash` is a function parameter `h: string -> int`. Every
  property that needs mnemonics to be told apart assumes their hashes are
  distinct.
- **Header constants.** `FILE_PREFIX`, `PROC_VERSION` and `HEADER_SIZE` are
  a `Header.Format`. The 4-byte prefix and the 4-byte version come first,
  and the header size is at least 8.
- **Stack growth.** `STACK_BUFFER_INCREASE` is a parameter `increase >= 1`.
- **Assembler limits.** The label table's capacity (`-S`, 1024 by default) is a parameter `cap` of `Assembler.Assemble`. The output buffer's size (`-F`, 0xFFFF by default) is a parameter `outSize` of `Assembler.AssemblerMain`.
- **Processor sizes.** The current processor's RAM, register and screen
  sizes are a `Machine.Config`.
- **Earlier command list.** The earlier revision includes a flow-command
  list and a console-command list that are not in the repository. Their
  mnemonics are a `LegacyCmd.Table`. Only where the memory and arithmetic
  commands sit depends on them.
- **Run length.** The processors' run loops take a `fuel` bound on the
  number of commands executed.

## Outcomes for undefined behaviour

Behaviour C leaves undefined is an explicit outcome, not a precondition.
Examples are:

- reading past the end of the file;
- `stack_get` on an empty stack;
- a register read past the register file;
- a write past the assembler's output buffer;
- a write the failed bounds check does not stop;
- signed overflow;
- division by zero.

The outcome is `Undefined`, `ReadPast`, `RunUndefined` and so on, so every
operation is total.

## Model

| member | source | states |
|---|---|---|
| CLib.CharValue | src/utils/argworks.cpp:19-51 | the value a signed `char` read from the text holds: in -128..127 and congruent to the character's byte modulo 256 |
| CInt.Wrap32 | src/cmds/memops.h:85 | conversion to `int`: a 32-bit value congruent to the input modulo 2^32, and the input itself when it already fits |
| CInt.Wrap64 | src/cmds/arifm.h:1-5 | conversion to `long long`: a 64-bit value congruent to the input modulo 2^64, and the input itself when it fits |
| CInt.SignedByte | src/processor.cpp:338 | a byte read through a `char` pointer: in -128..127 and congruent to the byte modulo 256 |
| CInt.CDiv | src/cmds/arifm.h:13 | C division truncates toward zero: the remainder is smaller than the divisor in magnitude and has the dividend's sign |
| CInt.ReadInt32Bytes | src/cmds/memops.h:32-39 | an `int` written with `BUF_WRITE` and read back with `memcpy`, at any offset of any file, is the same `int` |
| CInt.Int32BytesRead | src/cmds/memops.h:52-54 | the four bytes of an operand field are the encoding of the `int` read from them, so the encoding loses nothing |
| CInt.Or32LowByte | src/utils/argworks.cpp:27-28 | OR-ing a value below 256 into an `int` whose low byte is clear adds it, so the register number `read_pparg` ORs into the shifted offset lands in the low byte unchanged |
| CFormat.StrtolToInt | src/utils/argworks.cpp:53-58 | what `%d` stores: an `int`, and the number itself whenever it fits |
| CFormat.ReadDec | src/utils/argworks.cpp:39-58 | a successful `%d` consumes at least one character, stays in the text and stores an `int` |
| CFormat.ReadDecOfFormat | src/cmds/memops.h:1-30 | `%d` reads back exactly the number `printf("%d")` wrote, and stops right after it |
| CFormat.ReadDecOfNegative | src/utils/argworks.cpp:53-58 | `%d` reads a minus sign and digits as the negated number, consuming exactly those characters |
| CFormat.ScanLeadingBlank | src/utils/argworks.cpp:23-58 | a format that starts by skipping blanks scans text with one more blank in front to the same values, one character further on |
| StackWorks.Flags | lib/stackworks.h:79-101 | each damage flag is raised exactly when its fault is present: null pointer, size above capacity, missing buffer, each of the four canaries, a stale hash |
| StackWorks.Status | lib/stackworks.h:79-101 | the status number is 0 exactly when no flag is raised, and bit k is set exactly when the k-th flag is raised, from `STACK_NULL` at bit 0 to `STACK_HASH_FAILURE` at bit 7 |
| StackWorks.Init | lib/stackworks.h:22-32 | a stack with other damage than a missing buffer or a stale hash is refused with EINVAL and left alone; otherwise it gets a fresh poisoned buffer of the asked size and keeps its size |
| StackWorks.Destroy | lib/stackworks.h:34-44 | a damaged stack is refused with EINVAL; a healthy one ends with size and capacity 0 and reports only the missing buffer and the stale hash |
| StackWorks.Resize | lib/stackworks.h:163-178 | the new buffer keeps the lowest values that fit, poisons the rest, and keeps the size |
| StackWorks.Push | lib/stackworks.h:46-58 | a damaged stack, one whose size is above its capacity included, is refused with EINVAL and left as it was; a healthy one gets the value on top, stays healthy, and grows to `capacity * increase + 1` exactly when it was full |
| StackWorks.Pop | lib/stackworks.h:60-72 | a damaged stack, one whose size is above its capacity included, is refused with EINVAL, and an empty one with ENXIO; otherwise the top value is removed, the stack stays healthy, and the buffer shrinks exactly when its size times `increase^2` is below its capacity |
| StackWorks.Top | lib/stackworks.h:74-77 | a damaged stack, one whose size is above its capacity included, gives the poison value and EINVAL; an empty healthy stack reads outside the buffer, which is undefined; otherwise the top value, with no error |
| StackWorks.ShrinkKeepsValues | lib/stackworks.h:60-72 | when a pop shrinks the buffer, the new capacity still holds every value |
| StackWorks.ApplyMatchesReference | lib/stackworks.h:46-77 | on a healthy stack, any sequence of push, pop and get calls leaves the values a plain list would hold and reads the values it would read, and the stack stays healthy; the first pop of an empty stack is refused with ENXIO, and the first get of an empty stack reads outside the buffer |
| StackWorks.DamagedRefuses | lib/stackworks.h:46-77 | a damaged stack refuses whichever call comes first with EINVAL and is left as it was |
| FileProc.Translate | lib/file_proc.cpp:18-29 | the buffer is the text with every newline turned into NUL plus one NUL at the end; the count is the number of lines the text splits into |
| FileProc.FindStarts | lib/file_proc.cpp:34-41 | on a text without NUL bytes, the C string at each recorded start is the matching line of the text, in order |
| FileProc.ParseLines | lib/file_proc.cpp:13-44 | `parse_lines`: the buffer and line count, and, for a text without NUL bytes, one start per line whose C string is that line; a NUL byte in the text is reported as undefined |
| FileProc.JoinSplit | lib/file_proc.cpp:13-44 | joining the lines with newlines gives the text back |
| FileProc.SplitJoin | lib/file_proc.cpp:13-44 | splitting lines joined with newlines gives those lines back, when none holds a newline |
| ArgWorks.ReadPPArg | src/utils/argworks.cpp:9-82 | `read_pparg` always yields an `int` operand with a mode in 0..3 |
| ArgWorks.ReadPPArgLongestMatch | src/utils/argworks.cpp:9-82 | the operand is that of the first form among those that consume the most characters, and the immediate 0 when no form matches |
| ArgWorks.BlankIsImmediateZero | src/utils/argworks.cpp:15-17 | an empty or blank operand reads as the immediate 0 |
| ArgWorks.ReadPPArgLeadingBlank | src/utils/argworks.cpp:9-82 | a blank in front of an operand does not change how it reads |
| ArgWorks.ImmediateRead | src/utils/argworks.cpp:53-58 | a number with nothing a longer form could take reads as that immediate number |
| ArgWorks.MemoryRead | src/utils/argworks.cpp:39-44 | `[n]` reads as memory cell n |
| ArgWorks.RegisterRead | src/utils/argworks.cpp:46-51 | `R<c>X` reads as register `c - 'A'` |
| ArgWorks.RegIndexedRead | src/utils/argworks.cpp:23-30 | `[R<c>X + off]` reads as register `c - 'A'` packed with the offset |
| ArgWorks.LinkArgument | src/utils/argworks.cpp:84-130 | immediate mode names the operand itself; memory and register modes fault exactly when the index is outside RAM or the register file, and name that cell otherwise; register-indexed mode reads register `arg & 0xFF`, which is undefined when there is no such register because the failed check does not stop the read, and otherwise names RAM cell `reg[id] + off`, faulting when that cell is outside RAM |
| ArgWorks.UnpackPack | src/utils/argworks.cpp:23-30 | unpacking a packed register number and 24-bit offset gives both back |
| ArgWorks.PackUnpack | src/utils/argworks.cpp:110-115 | every register-indexed value is the packing of its own register number and offset |
| ArgWorks.LinkPacked | src/utils/argworks.cpp:110-129 | a packed operand resolves through its register to RAM cell `reg[id] + off` |
| ArgWorks.Render | src/cmds/memops.h:1-30 | the operand text the disassembler prints is never empty |
| ArgWorks.ReadPPArgOfRender | src/cmds/memops.h:1-30 | the operand text the disassembler prints reads back as the same value and mode, for registers `A` to `Z` |
| ProcCmd.OpAt | src/proccmd.h:25-29 | opcodes are dense from 0: every number below the command count names the command with that opcode |
| ProcCmd.OpOfCode | src/proccmd.h:25-29 | an opcode names a command exactly when it is below the count, and that command's opcode is the number |
| ProcCmd.CalcHashes | src/proccmd.h:59-66 | `__cmd_calc_hashes` fills entry i with the hash of mnemonic i, for every command |
| ProcCmd.FindFrom | src/assembler.cpp:349-350 | the chain of hash tests takes the first position holding the hash, and reports none only when no position does |
| ProcCmd.Lookup | src/assembler.cpp:349-350 | a word selects the first command whose mnemonic has its hash, and none when no mnemonic does |
| ProcCmd.LookupName | src/assembler.cpp:349-350 | with distinct hashes, a mnemonic selects its own command |
| ProcCmd.Displacement | src/cmds/flow.h:12-25 | a jump operand is an `int` that leads from the jump's address to the target whenever the difference fits |
| ProcCmd.OpOfByte | src/processor.cpp:338-346 | a byte selects a command exactly when it is below four times the command count; bytes from 0x80 read as negative opcodes |
| ProcCmd.DecodeEncode | src/assembler.cpp:349-350 | decoding an opcode byte gives back the command and mode it was built from |
| ProcCmd.EncodeDecode | src/cmds/memops.h:38-40 | every byte that selects a command is the opcode byte of that command and its own low bits |
| Labels.IndexOf | src/assembler.cpp:411-437 | the search loops find the first entry with the hash, and report none only when no entry has it |
| Labels.AddLabel | src/assembler.cpp:411-425 | a full table refuses with ENOMEM and is left alone, even for a known label; otherwise the label gets the address, no other label changes, and the table grows only for a new label |
| Labels.GetLabel | src/assembler.cpp:427-437 | returns a known label's address; an unknown label gives 0 and is entered at 0 when there is room; no other label changes |
| Labels.FirstPassKeys | src/assembler.cpp:254-256 | from an empty table with room to spare, the first pass leaves exactly the mentioned labels in the table |
| Labels.FirstPassValue | src/assembler.cpp:254-256 | after the first pass, a label bound at one address holds that address |
| Labels.SecondPass | src/assembler.cpp:262-264 | replaying the events over the filled table changes no keys, and keeps the value of a label bound only at that value |
| Labels.LabelsSettle | src/assembler.cpp:254-264 | at every point of the second pass, a label bound at a single address already has that address, including at references before the binding |
| Labels.FullTableRefusesRebind | src/assembler.cpp:411-415 | a full table refuses to rebind even a label it holds, because the capacity test comes before the search |
| Header.HeaderOf | src/assembler.cpp:322-327 | the header is exactly the header size long and starts with the prefix |
| Header.PrefixCheck | src/processor.cpp:279 | `strncmp` succeeds when the four bytes match, fails at the first difference inside the file, and reads past a shorter matching file |
| Header.ReadHeader | src/processor.cpp:277-290 | a file is accepted exactly when it has the prefix and a version no newer than the reader's, and code then starts right after the header; it is rejected exactly when a byte of the prefix differs or the version is newer |
| Header.ReadHeaderOf | src/disasm.cpp:218-235 | a header written for version v is accepted exactly when v is not newer than the reader |
| Header.ReadHeaderPutHeader | src/processor.cpp:277-290 | what the assembler writes is accepted, and code starts right after the header |
| Header.PutHeaderVersion | src/assembler.cpp:322-327 | the version field of what the assembler writes holds the tools' own version |
| Assembler.Classify | src/assembler.cpp:362-390 | a line is skipped exactly when it is empty or its first non-blank character is `#`; a label line's first word has the `HERE` hash; a command line's first word has the command's hash |
| Assembler.ProcessLine | src/assembler.cpp:362-407 | the bytes emitted have the line's width; the table changes exactly as the line's label event says; the only error is ENOMEM, from a `HERE` line meeting a full table; a command line's first byte holds its opcode |
| Assembler.EmitInstr | src/assembler.cpp:349-350 | a command line emits its width in bytes, starts with its opcode, raises no error, and touches the table only through its label reference |
| Assembler.Pass | src/assembler.cpp:341-347 | a pass emits as many bytes as the lines' widths add up to, and leaves the table as the lines' label events, replayed in order, do |
| Assembler.Assemble | src/assembler.cpp:254-271 | with a label table of `cap` entries, the file is the header followed by the bytes of the second pass |
| Assembler.AssemblerMain | src/assembler.cpp:171-271 | the program overruns its `out_size`-byte output buffer, which is undefined, exactly when the code is larger than the buffer; otherwise it writes what the two passes produce, which fits the buffer after the header |
| Assembler.PassPrefix | src/assembler.cpp:341-347 | the bytes of the first k lines are a prefix of the bytes of the first n lines |
| Assembler.LineBytes | src/assembler.cpp:341-347 | the bytes of line k sit right after the bytes of the lines above, and are that line processed with the table those lines left |
| Assembler.BindAddress | src/assembler.cpp:379-388 | a `HERE` line binds its label to the header size plus the bytes of the lines above |
| Assembler.SecondPassJump | src/assembler.cpp:262-264 | in the second pass, a jump to a label bound at one address holds the displacement from its own address to that label |
| Assembler.JumpResolves | src/assembler.cpp:254-271 | two passes resolve forward references: a jump naming a label bound at one address assembles to the displacement from the jump's address to that label |
| Assembler.PassInert | src/assembler.cpp:341-347 | lines that each assemble to fixed bytes make a pass that writes those bytes in order and leaves the table and errno alone |
| Assembler.AssembleInert | src/assembler.cpp:254-271 | a source whose lines each assemble to fixed bytes gives the header followed by those bytes, and the assembler succeeds |
| Machine.SeededRam | src/processor.cpp:154-157 | RAM is zero except that its first four cells, as far as they exist, hold the RAM size, the screen width, the screen height and the palette size |
| Machine.Initial | src/processor.cpp:122-157 | the machine starts in its C types, with empty stacks, errno 0 and segments of the configured sizes |
| Machine.GlyphIndexAsWritten | src/processor.cpp:380-381 | the clamp as written can reach the palette's terminating NUL |
| Machine.BrightCellPrintsNul | src/processor.cpp:380-383 | a cell at or above the palette size prints NUL, which is not a glyph |
| Machine.GlyphIndex | src/processor.cpp:380-381 | the intended clamp: a palette index, the value itself inside the palette, 0 below it and the last glyph above it |
| Machine.DrawCell | src/processor.cpp:380-383 | the character intended for a cell, the corrected half of the `draw_vmd` finding: never NUL, and the cell's own glyph whenever its value indexes the palette; the processor's `DRAW` prints `DrawCellAsWritten` instead |
| Machine.RowCells | src/processor.cpp:376-384 | a screen row shows each of its cells from left to right, each as the given cell-drawing function draws it |
| Machine.ScreenShowsNul | src/processor.cpp:374-387 | as written, a screen holding any cell of 70 or more sends NUL to the terminal |
| Machine.ScreenNulFree | src/processor.cpp:374-387 | the intended screen, drawn with the corrected clamp, never sends NUL to the terminal |
| Machine.Arith | src/cmds/arifm.h:1-13 | the arithmetic in `long long`: the result fits when there is one, and division by zero has none |
| Machine.Store | src/utils/argworks.cpp:84-130 | storing into a linked cell changes neither stack, the screen nor errno, nor the sizes of RAM and the register file |
| Machine.Exec | src/processor.cpp:315-349 | a byte that names no command sets EIO and stops |
| Machine.ExecEncode | src/processor.cpp:315-349 | an encoded command, anywhere in a file, executes as that command with the operand it was encoded with |
| Machine.JumpAt | src/cmds/flow.h:25-32 | a `JMP` or `CALL` whose operand is the displacement to a target sends the instruction pointer to that target |
| Machine.DispatchValid | src/processor.cpp:315-349 | every command that completes keeps the machine in its C types: `long long` values on the stack, `int` cells |
| Machine.ExecValid | src/processor.cpp:315-349 | so does executing any byte of a file |
| Machine.StackEffect | src/cmds/memops.h:32-124 | a command that completes with a non-zero shift takes exactly its own number of values from the top, leaves the rest untouched, and adds its own |
| Machine.CallReturns | src/cmds/flow.h:39-85 | a `CALL` followed, at its target, by a `RET` returns to the command after the `CALL`, with the address stack as it was |
| Machine.MoveThenPush | src/cmds/memops.h:67-97 | `MOVE` then `PUSH` with the same memory operand pushes back the old top as an `int` |
| Machine.Loop | src/processor.cpp:214-227 | a run that leaves the file stops with EFAULT at an offset outside the file, offset 0 included |
| Machine.LoopValid | src/processor.cpp:214-227 | a run from a machine in its C types ends in its C types |
| Machine.ProcessFile | src/processor.cpp:205-229 | a file is refused exactly when its header is rejected; a header read past the end of the file makes the run undefined |
| Machine.ProcessAssembled | src/processor.cpp:205-229 | a file written by the assembler runs from the first byte after the header, on the initial machine |
| MachineLaws.ArithOnPushed | src/cmds/arifm.h:1-5 | with b pushed and then a, an arithmetic command replaces both by `a op b`: the top is the left operand |
| MachineLaws.SubAndDivOrder | src/cmds/arifm.h:9-13 | `SUB` subtracts the lower value from the top, and `DIV` divides the top by it, rounding toward zero |
| MachineLaws.CondOnPushed | src/cmds/cond_jumps.h:16-29 | a conditional jump pops both values, jumps exactly when the comparison of top to lower holds, and raises EFAULT for a zero displacement |
| MachineLaws.CondOpposites | src/cmds/cond_jumps.h:40-44 | `JMPG` and `JMPLE` are opposites, and so are `JMPL` and `JMPGE`; `JMPE` jumps exactly when both `JMPGE` and `JMPLE` would |
| MachineLaws.VsetPushVget | src/cmds/memops.h:104-124 | `VSET`, then `PUSH` of the key, then `VGET` reads back the stored value |
| MachineLaws.DupThenPop | src/cmds/memops.h:62-102 | `DUP` then `POP` leaves the stack as it was |
| MachineLaws.StopCommands | src/cmds/flow.h:3-10 | `END` halts with the machine as it was; `ABORT` halts with EAGAIN, so the run fails |
| Disasm.ListCommand | src/disasm.cpp:257-281 | a byte at or above four times the command count is unknown; a command with an operand too close to the end reads past it; a listed command moves on by its width and prints one line |
| Disasm.ListEncode | src/disasm.cpp:245-246 | an encoded command, anywhere in a file, lists exactly as its own line and moves past itself |
| Disasm.Sweep | src/disasm.cpp:184-188 | the only error the listing loop leaves is EIO |
| Disasm.SweepBinary | src/disasm.cpp:184-188 | a program after the header lists one line per command, in order, with errno untouched |
| Disasm.Disassemble | src/disasm.cpp:179-192 | a file is refused exactly when its header is rejected; otherwise the output is never empty, and the only error is EIO |
| Disasm.DisassembleBinary | src/disasm.cpp:218-235 | a file written by the assembler lists as the version comments and one line per command, and the run succeeds |
| Disasm.ListingJoin | src/disasm.cpp:231-233 | the whole listing is its version comments and command lines, joined by newlines and ending in one |
| Reassembly.ReassembleLine | src/disasm.cpp:245-246 | the line listed for a command assembles back to that command's bytes, touches no label and raises no error |
| Reassembly.FlatEncodings | src/assembler.cpp:341-347 | the commands' encodings, one after another, are the program's bytes |
| Reassembly.CommentInert | src/assembler.cpp:365-374 | a comment line assembles to nothing |
| Reassembly.ListingInert | src/disasm.cpp:231-233 | every line of a listing assembles to fixed bytes: nothing for the comments and the blank line, a command's bytes for each command line |
| Reassembly.Reassemble | src/disasm.cpp:98-192 | disassembling a file written by the assembler and then assembling the listing gives back the same file, and the assembler succeeds |
| Pipeline.AssembledJumpLands | src/cmds/flow.h:12-37 | a `JMP` or `CALL` naming a label bound at one address, once assembled, sends the processor to that label |
| LegacyCmd.Code | lib/proccmd.h:24-36 | a command's opcode is its place in the list: the flow commands come first |
| LegacyCmd.EntryAt | lib/proccmd.h:24-36 | an opcode names a command exactly when it is inside the list; a known command's opcode is the number, and any other entry carries its mnemonic |
| LegacyCmd.EntryAtCode | lib/proccmd.h:24-36 | each known command is the one its own opcode names |
| LegacyCmd.CalcHashes | lib/proccmd.h:52-58 | the hash table holds the hash of every mnemonic, in opcode order |
| LegacyCmd.Lookup | assembler.cpp:305-306 | a word selects the first opcode whose mnemonic has its hash, and none when no mnemonic does |
| LegacyCmd.LookupName | assembler.cpp:305-306 | with distinct hashes, a mnemonic selects its own opcode |
| LegacyCmd.Encode | assembler.cpp:305-306 | a command takes its width in bytes, the first being its plain opcode |
| LegacyMachine.PushStep | lib/cmds/memops.h:32-99 | `PUSH` pushes the operand, the RAM cell or the register it names; a failed bounds check still reads the cell, which is undefined |
| LegacyMachine.MoveOffsetAsWritten | lib/cmds/memops.h:159-162 | the register-indexed offset as `MOVE` reads it is never negative |
| LegacyMachine.MoveOffsetDiverges | lib/cmds/memops.h:159-169 | for `[RAX + -1]`, `MOVE` addresses 2^24 cells past the cell `PUSH` reads |
| LegacyMachine.MoveOffsetAgrees | lib/cmds/memops.h:159-162 | the zero-extended offset and the sign-extended one agree exactly on offsets that are not negative |
| LegacyMachine.MoveCellAsWritten | lib/cmds/memops.h:158-176 | the RAM cell `MOVE` stores to for a register-indexed operand exists exactly when the register does and the register's value plus the zero-extended offset is inside RAM |
| LegacyMachine.MoveStep | lib/cmds/memops.h:121-183 | `MOVE` as written stores the top as an `int` in the cell named and pops it; a register-indexed operand completes exactly when register `arg & 0xFF` exists and so does the RAM cell at its value plus the zero-extended offset; immediate mode only pops, and an empty stack gives ENXIO and a shift of 4 |
| LegacyMachine.MoveStepIntended | lib/cmds/memops.h:121-183 | `MOVE` as intended: the same command except that a register-indexed operand stores to the cell `PUSH` reads with the sign-extended offset |
| LegacyMachine.MoveStepDiverges | lib/cmds/memops.h:158-178 | `MOVE [RAX + -1]` with RAX = 5 and 100 RAM cells stores outside RAM as written, which is undefined, and to cell 4 as intended |
| LegacyMachine.MoveStepAgrees | lib/cmds/memops.h:158-178 | the two `MOVE`s are the same command on every operand whose offset is not negative |
| LegacyMachine.MoveThenPush | lib/cmds/memops.h:32-183 | `MOVE` as intended then `PUSH` with the same operand, register-indexed included, gives back the old top as an `int` |
| LegacyMachine.RegGuardAdmitsEnd | lib/cmds/memops.h:206 | the register check as written admits the index one past the last register and raises no EFAULT there, while `RGET` and `RSET` at that index go past the register file |
| LegacyMachine.RgetStep | lib/cmds/memops.h:198-217 | `RGET` completes exactly when the index names a register, and pushes that register |
| LegacyMachine.RsetStep | lib/cmds/memops.h:218-237 | `RSET` completes exactly when the index names a register and the stack is not empty; it stores the top as an `int` without popping |
| LegacyMachine.RsetThenRget | lib/cmds/memops.h:198-237 | `RSET` then `RGET` of the same register pushes a copy of the top |
| LegacyMachine.PopStep | lib/cmds/memops.h:101-119 | `POP` on an empty stack stops with ENXIO; otherwise it removes the top and nothing else |
| LegacyMachine.DupStep | lib/cmds/memops.h:193-196 | `DUP` completes exactly when the stack is not empty, and pushes a copy of the top |
| LegacyMachine.SetStep | lib/cmds/memops.h:239-271 | `MSET` and `VSET` complete exactly when two values are there and the key names a cell; they store the value as an `int` and pop only the key |
| LegacyMachine.GetStep | lib/cmds/memops.h:251-283 | `MGET` and `VGET` complete exactly when the key names a cell, and replace the key by that cell |
| LegacyMachine.SetThenGet | lib/cmds/memops.h:239-283 | a set then a get with the same key pushes back the stored value |
| LegacyMachine.Arith | lib/cmds/arifm.h:1-31 | the arithmetic in `int`: the result fits when there is one, and division by zero has none |
| LegacyMachine.ArithStep | lib/cmds/arifm.h:1-31 | completes exactly when two values are there and the result is defined; replaces the top two values by `top op lower` |
| LegacyMachine.ArithAgrees | lib/cmds/arifm.h:1-31 | on `int` operands and results, the earlier arithmetic computes what the current one does |
| LegacyMachine.ArithTruncates | lib/cmds/arifm.h:1-7 | the earlier revision cuts operands to `int` first: `ADD` of 2^32 and 1 gives 1, where the current one gives 2^32 + 1 |
| LegacyMachine.Dispatch | processor.cpp:263-289 | a known command keeps the address stack and the output, and moves on by its width (4 for `MOVE` on an empty stack) or stops |
| LegacyMachine.Exec | processor.cpp:263-289 | an opcode that names no command sets EIO and stops; only a flow or console command is left unmodelled; a known command keeps the address stack and the console output |
| LegacyMachine.ExecEncode | processor.cpp:263-289 | an encoded known command executes with its operand, and with the mode its own opcode's low bits spell |
| LegacyMachine.Loop | processor.cpp:184-196 | a run that leaves the file stops with EFAULT at an offset outside the file; a run of known commands keeps the address stack and the output as they were |
| LegacyMachine.ProcessFile | processor.cpp:230-243 | a file is refused exactly when its header is rejected |
| LegacyAsm.Classify | assembler.cpp:316-340 | only a line that starts with `#` is a comment; a label line's first word has the `HERE` hash; a command line's first word has its mnemonic's hash |
| LegacyAsm.CommentAgrees | assembler.cpp:320-324 | on lines that do not start with a blank, the two revisions agree on what is a comment |
| LegacyAsm.IndentedComment | assembler.cpp:320-324 | an indented comment is skipped by the current assembler but looked up by the earlier one |
| LegacyAsm.ProcessLine | assembler.cpp:316-358 | the line's bytes do not depend on the labels; the table changes exactly as the line's `HERE` event says; the only error is ENOMEM, from a full table |
| LegacyAsm.KnownLine | assembler.cpp:316-358 | a known command's line is its plain opcode followed by the operand its parse script reads |
| LegacyAsm.PassBytes | assembler.cpp:222-238 | a pass writes the lines' bytes in order, whatever table it starts with |
| LegacyAsm.Overwrite | assembler.cpp:229-238 | rewriting the file from its start keeps the bytes beyond what is written |
| LegacyAsm.AssembleBytes | assembler.cpp:157-248 | the output is the header followed by the lines' bytes; the label table plays no part in it |
| LegacyAsm.LineExecutes | assembler.cpp:316-358 | a known command's line executes on the earlier processor as that command with its operand, but with the mode its opcode's low bits spell rather than the one written |
| LegacyDisasm.Selected | disasm.cpp:238-261 | the case chosen for a byte is the byte over four below 128, and negative from 128 on |
| LegacyDisasm.ListCommand | disasm.cpp:238-261 | a byte whose value over four names no command is unknown; a listed command moves on by its width and prints its name first |
| LegacyDisasm.ListShifted | disasm.cpp:229-230 | a command whose byte holds the opcode shifted left by two lists as its own line and moves past itself |
| LegacyDisasm.ListAssembled | disasm.cpp:238-261 | a byte the earlier assembler wrote is read as its opcode divided by four |
| LegacyDisasm.AssembledPopMisread | disasm.cpp:238-261 | without flow or console commands, the assembled `POP` reads as `PUSH` and reads past the end of the file |
| LegacyDisasm.Sweep | disasm.cpp:169-173 | the only error the listing loop leaves is EIO |
| LegacyDisasm.SweepFirst | disasm.cpp:169-173 | the first command of a program in the shifted encoding is listed as its own line, and the loop goes on from the next command, or stops at the end of the file |
| LegacyDisasm.SweepBinary | disasm.cpp:169-173 | a program in the shifted encoding lists one line per command, in order, with errno untouched |
| LegacyDisasm.Disassemble | disasm.cpp:204-219 | a file is refused exactly when its header is rejected; otherwise the output is never empty, and the only error is EIO |
| LegacyDisasm.DisassembleBinary | disasm.cpp:204-219 | a file in the shifted encoding lists as the version comments and one line per command, and succeeds |

## Left out

- Console I/O (`OUTC`, `OUT`, `CCLR`, `DRAW`): console output is a list of values, `CCLR` only records a clear, and the `system("clear")` call is not modelled.
- Logging and the listing file: they do not change the binary or the run, provided the listing file opens. With `-L 0`, or when `listing.txt` cannot be opened, `listing` stays NULL, yet both assemblers still call `fseek(listing, …)` between the passes (src/assembler.cpp:260 and assembler.cpp:234). The model assumes the listing file opens.
- Command-line flags: each one that matters is a parameter. `-S` is the label capacity `cap` of `Assembler.Assemble`. `-F` is the `outSize` of `Assembler.AssemblerMain`. `-W` and `-H` are the screen size in `Machine.Config`. The processor lists `-R` twice, once for the register count and once for the RAM size. The argument parser is not part of this model, so `Machine.Config` takes both sizes freely, and the register count decides whether a register-indexed operand's register exists. `-I` and `-O` only affect logging and the console.
- Allocation failure (`calloc` returning NULL): the model assumes every allocation succeeds.
- The processor's `stack_status` check before each command: the machine's stacks are plain sequences, and the protected stack is modelled on its own in `StackWorks`.
- The `code[10]` and `lbl_name` buffers of `process_line`: words longer than these buffers overflow them in C; the model reads whole words.
- Machine.Loop: the run is bounded by `fuel`, so a program that never stops ends with `OutOfFuel` instead of running forever.
- LegacyMachine.Loop: bounded by `fuel` in the same way.
- Machine.CallReturns: requires the file to be shorter than 2^31 bytes, so that offsets fit an `int`.
- Pipeline.AssembledJumpLands: requires a non-zero displacement, because a jump to its own address raises EFAULT.
- ArgWorks.ReadPPArgOfRender: registers are only said to read back for the letters `A` to `Z`, because `R<c>X` is read with a `%c`, and registers from 26 on print characters after `Z`.
- Disasm.Sweep: an empty program (a file that ends right after the header) reads a command past the end of the file; this case is `ListingUndefined`.
- LegacyCmd.CalcHashes: requires a command list shorter than 128 entries, because the loop bound is the count cast to `char`.
- Register-indexed addresses are `reg[id] + off` computed in `int`; signed overflow there is modelled as wrap-around, not as undefined behaviour.
- LegacyMachine.ProcessFile: the earlier processor defines no RAM or video memory, so their initial state is a parameter.
- The earlier flow and console commands: `lib/cmds/flow.h` and `lib/cmds/interaction.h` are not part of this model, so executing one of them is `Unmodelled`.
- The earlier revision does not compile as it stands. `lib/cmds/arifm.h` uses the three-argument `DEF_CMD` where `lib/cmds/memops.h` uses four, and `processor.cpp` defines no `RAM`, `VMD` or `reg`. The model follows each script's evident meaning.
- The earlier assembler's `BUF_PTR[0] |= arg.props` on `PUSH` and `MOVE` (lib/cmds/memops.h:35 and 124): `BUF_PTR` is not defined in `assembler.cpp`, so the earlier assembler does not compile. The model chooses to have it write the plain opcode byte and leaves out the mode bits.
- The earlier arithmetic commands have no disassembly script, so they list as their name alone.
- `StackWorks`'s damage markers (canaries, hash) are plain fields rather than ghost state.
- The earlier disassembler reads `opcode >> 2` while the earlier assembler writes the plain opcode. This is stated by `LegacyDisasm.ListAssembled` and `LegacyDisasm.AssembledPopMisread` rather than as a finding, because the earlier revision is an unfinished transition.
- The processor's address stack holds offsets in the loaded file rather than host pointers; their differences are the same.
- ArgWorks.ReadPPArg: its own contract states only that the operand is an `int` with a two-bit mode; which operand it reads is stated by ArgWorks.ReadPPArgLongestMatch and the per-form lemmas.
- ArgWorks.Render: its own contract states only that the text is not empty; what the text means is stated by ArgWorks.ReadPPArgOfRender.
- CFormat.ReadDec: its own contract states only bounds; the value read is stated by CFormat.ReadDecOfFormat and CFormat.ReadDecOfNegative.
- Assembler.Assemble: its own contract states the header and the length; the bytes are stated by Assembler.JumpResolves, Assembler.AssembleInert and Reassembly.Reassemble.
- Machine.Exec: its own contract states only the unknown-opcode case; each command is stated by Machine.ExecEncode, the step lemmas and MachineLaws.
- Disasm.Sweep: its own contract states only the error value; the text is stated by Disasm.SweepBinary.
- LegacyDisasm.Sweep: likewise; the text is stated by LegacyDisasm.SweepBinary.

## Findings

| source | as written | input that shows it | evidently intended | confidence | as-written member | corrected member |
|---|---|---|---|---|---|---|
| lib/cmds/memops.h:206 | `RGET` and `RSET` accept `reg_id <= REG_SIZE` | `RGET n` where n is the number of registers: the check passes and `reg[n]` is read past the register file | `reg_id < REG_SIZE`, as `MOVE` checks | high; not executed | LegacyMachine.RegGuardAdmitsEnd | LegacyMachine.RgetStep |
| lib/cmds/memops.h:161-162 | `MOVE` copies three bytes of the operand into a zeroed `int`, so the offset is zero-extended | `MOVE [RAX + -1]` with RAX = 5 and 100 RAM cells: the offset becomes 2^24 - 1 and the store goes outside RAM, while `PUSH [RAX + -1]` reads cell 4 | the sign fill of the top byte when the operand is negative, as `PUSH` does at line 71 | medium; not executed | LegacyMachine.MoveStepDiverges | LegacyMachine.MoveThenPush |
| src/processor.cpp:381 | `draw_vmd` clamps bright cells to `sizeof(PIX_STATES) - 1` | a video-memory cell of 70 or more prints the string's terminating NUL | `sizeof(PIX_STATES) - 2`, the last glyph | high; not executed | Machine.ScreenShowsNul | Machine.ScreenNulFree |
