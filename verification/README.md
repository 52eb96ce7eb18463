# A model of the breakpoint and register engine of debugger_template

`debugger_template.c` is a small ptrace debugger for x86-64 Linux. It starts a
child under `PTRACE_TRACEME` and reads commands at a prompt. It keeps one
software breakpoint, `struct breakpoint`, with an address, the byte the trap
replaced and an active flag.

- **Enabling** the breakpoint reads the 8-byte word at the address. It saves
  the low byte and writes the word back with that byte replaced by `int3`
  (0xcc).
- **Disabling** the breakpoint puts the saved byte back.
- **Registers** are named through a 27-entry table of `(dwarf number, name)`
  descriptors. A switch maps each descriptor number to a field of
  `struct user_regs_struct`.
- **Stepping over** the breakpoint happens whenever the breakpoint is active
  and rip is one past its address, whatever made the child stop there. The
  debugger moves rip back, disables the breakpoint, single-steps one
  instruction and enables the breakpoint again.

This Dafny project models that engine, with one module per part:

- `Wrappers` (wrappers.dfy): `Option`, `Result` and the error values that
  replace the C code's NULL pointers and unchecked ptrace failures.
- `Memory` (memory.dfy): the child's memory is a map from byte addresses to
  bytes.
  - `read_memory` and `write_memory` become `ReadWord` and `WriteWord`. These
    move little-endian 64-bit words, as `PTRACE_PEEKDATA` and
    `PTRACE_POKEDATA` do on x86-64.
  - `ReplaceLowByte` is the read-modify-write `(data & ~0xff) | b` shared by
    enable and disable.
- `Registers` (registers.dfy): the register snapshot is a sequence of 27
  words in `struct user_regs_struct` order. This module also holds:
  - the descriptor table, and the two lookups `get_register_by_name` and
    `get_register_by_dwarf_number`;
  - `get_register_address`, as `RegisterAddress`;
  - `register read` and `register write`.
- `Breakpoints` (breakpoints.dfy): `enable_breakpoint` and
  `disable_breakpoint`.
- `Execution` (execution.dfy): the child as memory plus registers, and the
  operations on it:
  - `get_pc` and `set_pc`;
  - `step_over_breakpoint`;
  - the `break` command, both as written and as evidently intended.
- `Commands` (commands.dfy): `is_command`, over C strings.

## Model

| member | source | states |
|---|---|---|
| Memory.ByteOfShifts | debugger_template-master/debugger_template-master/debugger_template.c:357-364 | Byte k of a word in little-endian order is the word shifted right by 8·k and masked with 0xff, for k = 0..7 |
| Memory.BytesInjective | debugger_template-master/debugger_template-master/debugger_template.c:357-364 | Two words with the same eight bytes are equal |
| Memory.PackThenSplit | debugger_template-master/debugger_template-master/debugger_template.c:357-364 | Assembling eight bytes into a word and splitting it again gives the same bytes |
| Memory.SplitThenPack | debugger_template-master/debugger_template-master/debugger_template.c:357-364 | Splitting a word into bytes and assembling them gives the same word |
| Memory.ReadWord | debugger_template-master/debugger_template-master/debugger_template.c:357-360 | read_memory: a result exists exactly when all eight bytes at a..a+7 are mapped; its bytes, in little-endian order, are the bytes in memory |
| Memory.WriteWord | debugger_template-master/debugger_template-master/debugger_template.c:362-364 | write_memory: it succeeds exactly when the word is mapped; the set of mapped cells does not change; a..a+7 then hold the value's bytes; every other cell is unchanged |
| Memory.ReadAfterWrite | debugger_template-master/debugger_template-master/debugger_template.c:357-364 | Reading back a written word gives the value written |
| Memory.WriteAfterRead | debugger_template-master/debugger_template-master/debugger_template.c:357-364 | Writing back the word just read leaves memory exactly as it was |
| Memory.WriteLowByte | debugger_template-master/debugger_template-master/debugger_template.c:232-236 | Writing back `(data & ~0xff) \| b` changes the byte at a to b and no other byte |
| Memory.ReadAfterLowByte | debugger_template-master/debugger_template-master/debugger_template.c:232-236 | After the byte at a is replaced, the word at a keeps its upper 56 bits and has b as its low byte |
| Memory.ReplaceLowByte | debugger_template-master/debugger_template-master/debugger_template.c:241-243 | The read-modify-write succeeds exactly when the word is mapped, and then only the byte at a becomes b |
| Memory.LowByte | debugger_template-master/debugger_template-master/debugger_template.c:232-233 | `(uint8_t)(data & 0xff)` exists exactly when the word is mapped, and is the byte stored at a itself |
| Registers.Offset | debugger_template-master/debugger_template-master/debugger_template.c:269-350 | Every field of the snapshot sits at a word offset below 27 |
| Registers.SlotAt | debugger_template-master/debugger_template-master/debugger_template.c:269-350 | The field found at an offset below 27 has that offset |
| Registers.LayoutBijective | debugger_template-master/debugger_template-master/debugger_template.c:269-350 | Fields and offsets 0..26 correspond one to one |
| Registers.Set | debugger_template-master/debugger_template-master/debugger_template.c:387-391 | Writing one field of the snapshot sets that field and keeps all 26 others |
| Registers.SlotOf | debugger_template-master/debugger_template-master/debugger_template.c:269-353 | The switch: number n in 0..26 selects the field at offset n; any other number hits the default case and gets no field |
| Registers.DescriptorsNumbered | debugger_template-master/debugger_template-master/debugger_template.c:29-59 | The table has n_registers = 27 entries, and entry i carries dwarf number i |
| Registers.DescriptorNamesDistinct | debugger_template-master/debugger_template-master/debugger_template.c:31-59 | No two table entries share a name |
| Registers.FindByName | debugger_template-master/debugger_template-master/debugger_template.c:248-253 | The search loop returns the first index from i on whose name matches; no result means no entry from i on matches |
| Registers.GetRegisterByName | debugger_template-master/debugger_template-master/debugger_template.c:247-254 | The result is a table entry with the given name, at its own dwarf index; no result (NULL) happens exactly when no entry has that name |
| Registers.GetRegisterByNameOfEntry | debugger_template-master/debugger_template-master/debugger_template.c:247-254 | Looking up the name of any table entry finds that very entry |
| Registers.FindByNumber | debugger_template-master/debugger_template-master/debugger_template.c:257-262 | The search loop returns the first index from i on with the given number; no result means no entry from i on has it |
| Registers.GetRegisterByDwarfNumber | debugger_template-master/debugger_template-master/debugger_template.c:256-263 | Numbers 0..26 give entry n of the table; every other number gives no result (NULL) |
| Registers.RegisterAddress | debugger_template-master/debugger_template-master/debugger_template.c:265-355 | Fails exactly for names not in the table, with UnknownRegister; otherwise selects the field whose offset is the entry's dwarf number |
| Registers.RegisterAddressOnto | debugger_template-master/debugger_template-master/debugger_template.c:265-355 | Every field of the snapshot is reached from the name at its offset in the table |
| Registers.RegisterAddressInjective | debugger_template-master/debugger_template-master/debugger_template.c:265-355 | Two names that select the same field are the same name |
| Registers.ReadRegister | debugger_template-master/debugger_template-master/debugger_template.c:143-148 | `register read` fails exactly for an unknown name; otherwise it gives the snapshot word at the offset given by the name's dwarf number |
| Registers.WriteRegister | debugger_template-master/debugger_template-master/debugger_template.c:143-153 | `register write` fails exactly for an unknown name; otherwise the snapshot has the word at the name's dwarf offset set to v and every other word unchanged |
| Registers.RegisterWriteRead | debugger_template-master/debugger_template-master/debugger_template.c:142-153 | A register written by name reads back the value written; every other named register keeps its value; write and read fail on the same names |
| Breakpoints.EnableBreakpoint | debugger_template-master/debugger_template-master/debugger_template.c:231-238 | It succeeds exactly when the word at addr is mapped, and fails with AccessError(addr) otherwise. On success, only the byte at addr changes, to 0xcc; prev_opcode is the old byte; the breakpoint is active at addr |
| Breakpoints.DisableBreakpoint | debugger_template-master/debugger_template-master/debugger_template.c:240-245 | It succeeds exactly when the word is mapped, and fails with AccessError(addr) otherwise. On success, only the byte at addr changes, back to prev_opcode; the breakpoint is the same but inactive |
| Breakpoints.EnableThenDisable | debugger_template-master/debugger_template-master/debugger_template.c:231-245 | After enable: the trap is armed, the original memory is recoverable, and only the byte at addr changed. Then disable restores memory exactly, even when the old byte was itself 0xcc |
| Breakpoints.DisableRestoresOriginal | debugger_template-master/debugger_template-master/debugger_template.c:240-245 | Disabling an armed breakpoint yields the child's original memory |
| Breakpoints.EnableOverSavedByte | debugger_template-master/debugger_template-master/debugger_template.c:231-238 | Enabling over memory that holds the saved byte gives back the same breakpoint, now active |
| Breakpoints.DisableThenEnable | debugger_template-master/debugger_template-master/debugger_template.c:231-245 | Disabling and re-enabling an armed breakpoint restores the same memory and the same breakpoint |
| Execution.SetPc | debugger_template-master/debugger_template-master/debugger_template.c:387-392 | set_pc: afterwards get_pc returns pc; memory and the other 26 registers are unchanged |
| Execution.GetPc | debugger_template-master/debugger_template-master/debugger_template.c:381-385 | get_pc: the rip field of the snapshot. It carries no contract of its own; Execution.PcIsRipRegister states that it is the word `register read rip` shows |
| Execution.RipIsRip | debugger_template-master/debugger_template-master/debugger_template.c:318-320 | The name "rip" selects the rip field |
| Execution.PcIsRipRegister | debugger_template-master/debugger_template-master/debugger_template.c:381-392 | get_pc and set_pc agree with `register read rip` and `register write rip` |
| Execution.PcRoundTrip | debugger_template-master/debugger_template-master/debugger_template.c:381-392 | Setting pc to its current value changes nothing, and a second set_pc overrides the first |
| Execution.Rewound | debugger_template-master/debugger_template-master/debugger_template.c:370-372 | For an active breakpoint over a mapped word, whatever byte it holds: rip becomes addr and no other register changes; prev_opcode is back at addr, and no other memory cell changes |
| Execution.AtTrap | debugger_template-master/debugger_template-master/debugger_template.c:367-369 | The guard: the breakpoint is active and rip - 1 equals addr, which with 64-bit wrap-around is the same as addr + 1 equals rip |
| Execution.StepOver | debugger_template-master/debugger_template-master/debugger_template.c:366-379 | Away from the trap (not active, or rip - 1 ≠ addr, with wrap-around) nothing changes; any failure is AccessError at the breakpoint's address |
| Execution.StepFromTrap | debugger_template-master/debugger_template-master/debugger_template.c:370-376 | The trap branch either fails with AccessError(addr) or leaves the breakpoint active at addr |
| Execution.StepOverAtTrap | debugger_template-master/debugger_template-master/debugger_template.c:366-379 | At the guard, with the word at addr mapped (0xcc there or not), the single step runs from rip = addr over prev_opcode. Afterwards 0xcc is at addr, and the byte the step left there is the new prev_opcode. This succeeds exactly when that word is still mapped |
| Execution.StepOverUnmapped | debugger_template-master/debugger_template-master/debugger_template.c:366-379 | At the guard, an unmapped word at addr makes the step-over fail with AccessError(addr) |
| Execution.StepFromMappedTrap | debugger_template-master/debugger_template-master/debugger_template.c:370-376 | The trap branch alone, for any active breakpoint over a mapped word: the same outcome as StepOverAtTrap |
| Execution.StepOverKeepsArmed | debugger_template-master/debugger_template-master/debugger_template.c:366-379 | A step-over keeps the breakpoint armed, at the same address and with the same active flag |
| Execution.StepOverQuietInstruction | debugger_template-master/debugger_template-master/debugger_template.c:366-379 | At the guard over a mapped word, if the stepped instruction writes no memory, the breakpoint comes back unchanged and memory differs from before only by 0xcc at addr; only the registers move |
| Execution.StepOverQuietArmed | debugger_template-master/debugger_template-master/debugger_template.c:366-379 | If 0xcc was in place too, memory comes back exactly as it was |
| Execution.BreakAsWritten | debugger_template-master/debugger_template-master/debugger_template.c:139-141 | `break addr` as written: it succeeds exactly when the word is mapped, sets 0xcc at addr and saves whatever byte was there, even a trap that is already installed |
| Execution.BreakTwiceLosesByte | debugger_template-master/debugger_template-master/debugger_template.c:139-141 | Two `break 0x1000` over nops save 0xcc as prev_opcode. Disabling then leaves 0xcc, and the child's 0x90 is lost |
| Execution.SetBreakpoint | debugger_template-master/debugger_template-master/debugger_template.c:139-141 | `break addr`, corrected: on success the breakpoint is active at addr and the registers are unchanged |
| Execution.SetBreakpointKeepsOriginal | debugger_template-master/debugger_template-master/debugger_template.c:139-141 | From an armed state, the corrected `break` succeeds exactly when addr is mapped. The new breakpoint is armed, and the child's original memory is preserved |
| Commands.CStr | debugger_template-master/debugger_template-master/debugger_template.c:208-217 | A C string is the longest NUL-free prefix of the buffer; it stops at the first NUL |
| Commands.CStrOfPlain | debugger_template-master/debugger_template-master/debugger_template.c:208-217 | A buffer without NUL is its own C string |
| Commands.IsCommand | debugger_template-master/debugger_template-master/debugger_template.c:208-217 | is_command is true exactly when reference, read up to its NUL, is a prefix of input, read up to its NUL |
| Commands.StartsWithPlain | debugger_template-master/debugger_template-master/debugger_template.c:208-217 | For NUL-free strings the match is the plain prefix relation |

## Left out

- The program's lifecycle is not modelled: `main`, `fork`/`execl`, `PTRACE_TRACEME`, `personality`, `waitpid` and `wait_for_signal`. This is process control outside the engine.
- The prompt is not modelled: linenoise, `strtok` tokenising, `strtol` parsing of the `break` address and of the `register write` value, and `printf` output. This is input and output.
- `continue_execution` is not modelled beyond its step-over: `PTRACE_CONT` runs the child, which the model does not execute.
- The single step is a parameter `step: Target -> Target`. `PTRACE_SINGLESTEP` executes one instruction of the child, and this model does not interpret x86 instructions.
- Memory and register failures are modelled as `Result` and `Option` values. The C code never checks ptrace's return value; it reads a failed `PTRACE_PEEKDATA` as the word -1.
- Breakpoints.EnableBreakpoint: on an unreadable or unwritable word the C code would store 0xff in `prev_opcode` and still set `active`. The model returns `AccessError` and changes nothing.
- Breakpoints.DisableBreakpoint: on an unmapped word the C code would clear `active`. The model returns `AccessError` and changes nothing.
- Registers.RegisterAddress: for an unknown name the C code dereferences NULL (line 269). The model returns `UnknownRegister`. The default case of the switch is kept as `InvalidRegister`, and the table never reaches it.
- Memory.ReadWord: line 358 lacks its terminating semicolon, so the C file does not compile as written. The model gives the function its evident meaning.
- Execution.StepFromTrap: it is entered only when rip - 1 equals the breakpoint's address, so `set_pc(get_pc() - 1)` is modelled as setting rip to that address.
- Execution.StepOver: a failed disable or re-enable returns only `AccessError`. In the C code the state has moved on by then. rip is already rewound, and after a failed re-enable the child has also executed the instruction. In addition `enable_breakpoint` stores 0xff as `prev_opcode` and sets `active`. The model does not return that state.
- Execution.BreakAsWritten: on an unmapped address the model returns only `AccessError`. The C code has already overwritten `breakpt->addr` (line 140) and then marks the breakpoint active, as described for Breakpoints.EnableBreakpoint.
- Registers.GetRegisterByName: names are compared as whole strings, where the C code uses `strcmp`. The names reaching it are `strtok` tokens, which hold no NUL, so the two agree.
- The commented-out example block in `main` is not modelled.
- The `debugee` struct is not modelled; only the child's memory and registers are.

## Findings

| source | as written | input that shows it | evidently intended | confidence | as-written member | corrected member |
|---|---|---|---|---|---|---|
| debugger_template-master/debugger_template-master/debugger_template.c:139-141 | `break` overwrites `breakpt->addr` and calls `enable_breakpoint` even when a breakpoint is already installed | `break 0x1000` issued twice over nop bytes: the second enable saves the trap byte 0xcc as `prev_opcode`. Disabling leaves 0xcc in the child's code, and the original 0x90 is lost | Disable an installed breakpoint first, so its saved byte goes back before the trap moves | not executed | Execution.BreakAsWritten, Execution.BreakTwiceLosesByte | Execution.SetBreakpoint, Execution.SetBreakpointKeepsOriginal |
