# CHIP-8 interpreter core, modelled in Dafny

A Dafny model of the core of a small CHIP-8 interpreter written in Rust. It has
four parts:

- **the opcode decoder** (`impl From<u16> for Instruction`);
- **`Memory`**: 4096 bytes, a write-protected region below 0x200, the
  hexadecimal font in `[0, 80)`, and a call stack of 16-bit return addresses
  kept inside the same array;
- **`Registers`**: sixteen data registers, the address register I, and the
  delay and sound timers;
- **one iteration of the main loop** as a pure step function: fetch, decode,
  the instruction's match arm, and the generic `pointer += 2`. It includes
  `draw_byte`, which writes one 8-pixel row of the 64x32 frame buffer.

Files, one module each:

| file | module | models |
|---|---|---|
| `bytes.dfy` | `Bytes` | `u8`/`u16`/`u32`, `Option`, `Checked` (a value or a panic), bitwise or, and, xor |
| `instructions.dfy` | `Instructions` | the `Instruction` enum, the decoder `Decode`, its domain `Decodable` and its inverse `Encode` |
| `ram.dfy` | `Ram` | `Memory` and its operations, with the stack abstracted as `Stack(m)` |
| `registers.dfy` | `RegisterFile` | `Registers` and its operations |
| `display.dfy` | `Display` | the frame buffer and `draw_byte` |
| `interpreter.dfy` | `Interpreter` | the loop state, `Fetch`, `Execute` (the match arms) and `Step` |

Design decisions:

- **Panics are values.** An `unwrap` of `None`, a `todo!()`, an out-of-range
  slice index and a debug-build overflow of `+` or `-` all end the run. The
  model returns them as `Panic` or `Panicked`; no precondition excludes them.
- **Integers are unbounded.** Wrap-around is written out where the source uses
  `overflowing_add`, `overflowing_sub` and `<<`. Elsewhere an overflow is a panic.
- **The stack invariant.** `Memory` has private fields, so the only reachable
  values are those built by `new` and changed by its own methods. `Ram.Valid`
  holds for all of them: the stack pointer is even and lies in `[80, 510]`.
- **`Variant` selects the code.** `Execute` and `Step` take
  `Variant = AsWritten | Corrected`. `AsWritten` is the loop exactly as the
  source has it. `Corrected` differs only in the arms listed under
  "## Findings"; every other arm is shared.

Where the model follows the code rather than the documented CHIP-8 behaviour:

- the fetch is little-endian;
- the ALU flag goes to a loop-local `vf` and never to register 15;
- `draw_byte` overwrites pixels instead of XOR-ing them;
- `Sub` and `SubInverted` set the flag on a borrow, not on "no borrow";
- `ShiftRight` and `ShiftLeft` act on register y (`regs & 0xF`), although the
  enum's doc comments name the high nibble;
- the `Draw` arm discards the collision result of `draw_byte`, so `Draw` never
  sets a flag, although the enum's doc comment says it sets VF;
- the instruction set stops at `Fx29`.

## Model

| member | source | states |
|---|---|---|
| `Bytes.BitsSelf` | src/main.rs:85-96 | a byte combined with itself: xor gives 0, or and and give the byte back |
| `Bytes.XorInvolution` | src/main.rs:93-96 | `^ b` applied twice restores the original value |
| `Bytes.AndUnderMask` | src/main.rs:129-131 | `a & m` is at most `m`, and masking it again changes nothing |
| `Instructions.Decode` | src/instruction.rs:142-193 | yields an instruction exactly on the domain `Decodable`: families 0-4, 6, 7 and A-D; 5 and 9 with low nibble 0; 8 with low nibble 0-7 or E; E with low byte 9E or A1; F with low byte 07, 0A, 15, 18, 1E or 29. Every other opcode reaches `todo!()` (`None`). 00E0 and 00EE take priority over `0nnn`, and any other opcode up to 0FFF is `SystemAddress` carrying the opcode unchanged |
| `Instructions.DecodeAddress` | src/instruction.rs:149-167 | jumps, calls, `LoadI` and `JumpAddressOffset` carry `op & 0xFFF`, always below 0x1000 |
| `Instructions.DecodeRegister` | src/instruction.rs:151-188 | the byte-immediate, key and timer forms name register x, the second nibble, always below 16 |
| `Instructions.DecodeByteOperand` | src/instruction.rs:151-169 | every byte operand, the `RandRange` mask and the `Draw` count byte are the opcode's low byte |
| `Instructions.DecodeRegisterPair` | src/instruction.rs:153-165 | `5xy0`, `8xyN` and `9xy0` carry the middle byte: high nibble x, low nibble y |
| `Instructions.DecodeUnmaskedHighByte` | src/instruction.rs:154-169 | `LoadByte` and `Draw` keep the unmasked high byte, `0x60 + x` and `0xD0 + x`, so their first field is at least 16 |
| `Instructions.EncodeDecode` | src/instruction.rs:142-193 | every decodable opcode is rebuilt exactly by `Encode` from its decoded instruction |
| `Instructions.EncodeDecodeAddress` | src/instruction.rs:145-150 | the same round trip for families 0, 1, 2, A and B |
| `Instructions.EncodeDecodeImmediate` | src/instruction.rs:151-169 | the same round trip for families 3, 4, 6, 7, C and D |
| `Instructions.EncodeDecodePair` | src/instruction.rs:153-165 | the same round trip for families 5, 8 and 9 |
| `Instructions.EncodeDecodeKeyTimer` | src/instruction.rs:170-189 | the same round trip for families E and F |
| `Instructions.DecodeEncode` | src/instruction.rs:142-193 | every instruction the decoder can produce is decoded back from its encoding |
| `Instructions.DecodeEncodeAddress` | src/instruction.rs:145-150 | the same for the literal and address-carrying forms |
| `Instructions.DecodeEncodeImmediate` | src/instruction.rs:151-169 | the same for the forms with a register and a byte |
| `Instructions.DecodeEncodeSkipByte` | src/instruction.rs:151-152 | the same for `3xkk` and `4xkk` |
| `Instructions.DecodeEncodeLoadByte` | src/instruction.rs:154-169 | the same for `6xkk`, `7xkk`, `Cxkk` and `Dxyn` |
| `Instructions.DecodeEncodePair` | src/instruction.rs:153-165 | the same for the register-pair forms |
| `Instructions.DecodeEncodeArithmetic` | src/instruction.rs:156-164 | the same for `8xyN` |
| `Instructions.DecodeEncodeKeyTimer` | src/instruction.rs:170-189 | the same for the `Ex..` and `Fx..` forms |
| `Instructions.DecodeInjective` | src/instruction.rs:142-193 | two decodable opcodes that decode to the same instruction are equal |
| `Ram.New` | src/memory.rs:22-178 | glyph d occupies bytes `[5d, 5d+5)` for d = 0..15, every other byte is 0, the stack pointer is 80, and the stack is valid and empty |
| `Ram.CopyGlyph` | src/memory.rs:162-167 | the inner loop puts glyph d at `[5d, 5d+5)` and leaves every other byte alone |
| `Ram.Load` | src/memory.rs:181-191 | a byte is returned exactly for an index below 0x1000, and it is the byte stored at that index |
| `Ram.Store` | src/memory.rs:194-205 | returns true exactly in the program region `[0x200, 0x1000)`; then only that byte changes; otherwise nothing changes |
| `Ram.LoadAfterStore` | src/memory.rs:181-205 | a stored byte is read back, and every other address reads as before |
| `Ram.WordRoundTrip` | src/memory.rs:219-239 | the two stacked bytes of a word decode to the same word |
| `Ram.Push` | src/memory.rs:208-224 | succeeds exactly when the stack has room and the address is in the program region. On success the address is on top of the old stack and sp grows by 2; on failure nothing changes. Only bytes sp and sp+1 are written, and `Valid` is kept |
| `Ram.PushStack` | src/memory.rs:215-222 | writing the word at sp and adding 2 to sp appends the address to the stack |
| `Ram.Pop` | src/memory.rs:227-240 | `None` with nothing changed exactly when the stack is empty. Otherwise it returns the top word, the old stack is the new one plus that word, and sp drops by 2. No byte changes and `Valid` is kept |
| `Ram.PushThenPop` | src/memory.rs:208-240 | a successful push followed by a pop returns the pushed address and restores sp and the stack |
| `Ram.StackAddressesPreserved` | src/memory.rs:194-240 | push and pop keep every stacked word a program-region address; store never changes the stack |
| `Ram.OverflowIsClean` | src/memory.rs:211-213 | a push onto a full stack fails and changes nothing |
| `Ram.Slice` | src/memory.rs:243-249 | `Some` exactly when `start <= end <= 0xFFF`, so byte 0xFFF is never reachable. The result holds the bytes of the range; an inverted range panics |
| `Ram.SliceMutFrom` | src/memory.rs:252-258 | a mutable slice is granted exactly within its bounds. `copy_from_slice` fills the range with the source bytes and panics on a length mismatch. Bytes outside the range and sp are kept |
| `Ram.ProgramLoadRefused` | src/main.rs:32-36 | as written, the mutable slice `0x200..0x1000` the program image is copied into is refused |
| `Ram.ProgramLoadLengthPanics` | src/main.rs:32-36 | even with the bound fixed, copying the image into the whole region `0x200..0x1000` panics exactly when the image is not 0xE00 bytes long |
| `Ram.ProgramLoadAccepted` | src/main.rs:32-36 | copying into a slice of the image's own length at 0x200 succeeds for every image of at most 0xE00 bytes: the image lands at 0x200 onwards, and every other byte and the stack pointer are kept |
| `Ram.SliceMutCorruptsStack` | src/memory.rs:253 | as written, a mutable slice of bytes 200..202 can overwrite the 61st stacked return address with 0 |
| `Ram.SliceMutProgramKeepsStack` | src/memory.rs:252-258 | with the 0x200 bound, a write through the slice keeps the font, the stack and sp |
| `Ram.Index` | src/memory.rs:261-270 | returns the byte exactly where `load` does, and panics elsewhere |
| `Ram.IndexMut` | src/memory.rs:272-283 | succeeds exactly where `store` would, with the same result, and panics elsewhere |
| `RegisterFile.GetValue` | src/registers.rs:22-28 | `Some` exactly for an id below 16, holding register `id` |
| `RegisterFile.SetValue` | src/registers.rs:31-37 | a write through `get_value_mut` is possible exactly for an id below 16. It changes that register only; I and the timers are kept |
| `RegisterFile.SetAddress` | src/registers.rs:40-47 | `address()` reads back the value written through `address_mut`; nothing else changes |
| `RegisterFile.SetDelay` | src/registers.rs:50-57 | `delay()` reads back the value set; nothing else changes |
| `RegisterFile.SetSoundTimer` | src/registers.rs:60-67 | `sound_timer()` reads back the value set; nothing else changes |
| `RegisterFile.Cycle` | src/registers.rs:70-77 | each timer drops by one when positive and stays at 0 otherwise; data registers and I are kept |
| `RegisterFile.CycleNCountsDown` | src/registers.rs:70-77 | after n ticks each timer has dropped by n, stopping at 0 |
| `RegisterFile.TimersNeverRise` | src/registers.rs:71-76 | ticking never raises a timer, and a timer at 0 stays at 0 |
| `RegisterFile.Slice` | src/registers.rs:80-86 | `None` exactly when `end > 0xFFF`. Otherwise there is a slice exactly when `start <= end <= 16`, else a panic. The slice holds the registers of the range |
| `RegisterFile.SliceMut` | src/registers.rs:90-96 | never yields a usable slice: it panics exactly when the bounds check passes (start >= 200 overruns the 16 registers), and is `None` otherwise |
| `Display.Blank` | src/main.rs:55 | every pixel of the cleared buffer is 0 |
| `Display.DrawByte` | src/main.rs:9-19 | the new buffer is the row image: the 8 pixels of row y at columns `(x+j) mod 64` carry sprite bit `7-j` (all ones or 0), and every other pixel is kept. The result is true exactly when a set sprite bit lands on a nonzero pixel |
| `Display.DrawByteOtherRow` | src/main.rs:9-19 | a pixel off row y keeps its value |
| `Display.DrawBytePixel` | src/main.rs:9-19 | pixel k shows its sprite bit when it is one of the row's eight cells, and keeps its value otherwise |
| `Display.DrawFromSpec` | src/main.rs:11-17 | loop invariant of the column loop: after columns `j..7` the row image is complete, and the flag records every collision |
| `Interpreter.Advance` | src/main.rs:159 | the generic `pointer += 2`, which panics on `u16` overflow |
| `Interpreter.DrawOrigin` | src/main.rs:133-136 | the origin registers are both below 16 |
| `Interpreter.DrawSprite` | src/main.rs:137-144 | the row loop succeeds exactly when there are no rows or all rows lie inside memory; with no rows the buffer is unchanged. The pixels it leaves are stated by `Interpreter.DrawSpritePixel` |
| `Interpreter.DrawSpriteKeepsOtherRows` | src/main.rs:137-144 | a successful draw changes no pixel on a screen row that none of its sprite rows `(i mod 5 + y) mod 32` lands on |
| `Interpreter.LastCover` | src/main.rs:137-144 | finds the last sprite row that writes pixel k (on its screen row, within eight columns of `x + i / 5`): no later row writes k, and with no result no row does |
| `Interpreter.DrawSpritePixel` | src/main.rs:137-144 | whenever the rows lie in memory the loop succeeds, and every pixel equals `DrawnPixel`: the bit of the last sprite row that writes it, or its old value when no row does. Rows drawn later overwrite earlier ones |
| `Interpreter.Fetch` | src/main.rs:43-50 | at `pointer == 0xFFE` the slice is refused and the `unwrap` panics. Otherwise the word is little-endian as written, big-endian corrected |
| `Interpreter.Step` | src/main.rs:40-159 | halts at `pointer >= 0xFFF` and panics at 0xFFE. Otherwise it runs the decoded instruction, and an undecodable opcode panics |
| `Interpreter.ExecuteAdd` | src/main.rs:97-101 | `Vx` plus 256 times the flag equals the full sum `Vx + Vy`. Only `Vx` and `vf` change; the step panics only when the advance overflows |
| `Interpreter.ExecuteSub` | src/main.rs:102-106 | `Vx - Vy` equals the new `Vx` less 256 times the flag, and the flag is set exactly on a borrow (`Vx < Vy`); only `Vx` and `vf` change |
| `Interpreter.ExecuteSubInverted` | src/main.rs:111-115 | `Vy - Vx` equals the new `Vx` less 256 times the flag, and the flag is set exactly when `Vy < Vx` |
| `Interpreter.ExecuteShiftRight` | src/main.rs:107-110 | on register y: twice the new value plus the flag equals the old value |
| `Interpreter.ExecuteShiftLeft` | src/main.rs:116-119 | on register y: the new value plus 256 times the flag equals twice the old value |
| `Interpreter.ExecuteLoadRegister` | src/main.rs:81-84 | `Vx` becomes `Vy`; nothing else changes |
| `Interpreter.LogicStep` | src/main.rs:81-96 | `8xy0` to `8xy3` write their value into register x and advance the pointer by 2 |
| `Interpreter.ExecuteLogic` | src/main.rs:85-96 | `Or`, `And` and `Xor` write only `Vx` and leave the flag, memory, screen, I and the timers alone |
| `Interpreter.XorWithItself` | src/main.rs:93-96 | `Vx ^= Vx` clears the register |
| `Interpreter.OrAndWithItself` | src/main.rs:85-92 | `Or` and `And` with x equal to y leave every register unchanged |
| `Interpreter.XorBankTwice` | src/main.rs:93-96 | two identical `Vx ^= Vy` updates with x different from y restore the register bank |
| `Interpreter.XorTwiceRestores` | src/main.rs:93-96 | `Xor` run twice with x different from y restores every register and moves the pointer by 4 |
| `Interpreter.ExecuteRandRange` | src/main.rs:129-131 | register `reg & 0xF` becomes the random byte and-ed with the mask, so it has no bit outside the mask and is at most the mask; nothing else changes |
| `Interpreter.ExecuteAddByte` | src/main.rs:80 | panics exactly when the sum overflows a byte; otherwise it adds the byte to register x alone |
| `Interpreter.ExecuteLoadI` | src/main.rs:127 | I becomes the address; data registers, memory and screen are kept |
| `Interpreter.ExecuteDraw` | src/main.rs:132-145 | runs on exactly when there are no sprite rows or they all lie in memory, and the pointer can advance. It then changes no register and no memory. Every pixel equals `DrawnPixel`, so pixels on rows no sprite row lands on are kept |
| `Interpreter.DrawArmFrame` | src/main.rs:132-145 | the same, stated of the arm alone |
| `Interpreter.ExecuteClearScreen` | src/main.rs:55 | every pixel becomes 0; registers and memory are kept |
| `Interpreter.ExecuteSkip` | src/main.rs:62-78 | the four skips, including `9xy0` at src/main.rs:120-126, move the pointer by 4 when the condition holds and by 2 otherwise, and change nothing else |
| `Interpreter.ExecuteUnimplemented` | src/main.rs:146-157 | the key, timer and I-register arms panic (`todo!()`) |
| `Interpreter.ExecuteSystemAddress` | src/main.rs:54 | `SystemAddress` spins forever, whatever its address |
| `Interpreter.ExecuteKeepsInvariants` | src/main.rs:54-145 | every arm keeps `Valid` memory and a stack of program addresses, and never touches the timers |
| `Interpreter.ArmsKeepMemory` | src/main.rs:54-145 | every arm except `Return` and `CallAddress` leaves memory and the timers as they were |
| `Interpreter.RegisterArmsKeepMemory` | src/main.rs:81-119 | the same for the `8xyN` arms |
| `Interpreter.ControlArmsKeepMemory` | src/main.rs:54-145 | the same for the remaining arms |
| `Interpreter.JumpTargetAsWritten` | src/main.rs:57 | as written, a jump lands on target + 2 |
| `Interpreter.JumpTargetCorrected` | src/main.rs:57 | corrected, a jump lands on the target |
| `Interpreter.CallReturnAsWritten` | src/main.rs:56-61 | as written, a call and its return bring the pointer back to the call itself, with the stack restored |
| `Interpreter.CallReturnCorrected` | src/main.rs:56-61 | corrected, the call enters at the target, and the return resumes after the call with the stack restored |
| `Interpreter.ReturnPanics` | src/main.rs:56 | `Return` panics exactly when the stack is empty; on a stack of program addresses `popped - 2` never underflows |
| `Interpreter.JumpOffsetAsWritten` | src/main.rs:128 | as written, `Bnnn` jumps to `nnn + I + 2` |
| `Interpreter.JumpOffsetCorrected` | src/main.rs:128 | corrected, `Bnnn` jumps to `nnn + V0` |
| `Interpreter.LoadByteAsWritten` | src/main.rs:79 | as written, every `6xkk` panics |
| `Interpreter.LoadByteCorrected` | src/main.rs:79 | corrected, `6xkk` sets register x to `kk` and nothing else |
| `Interpreter.DrawOriginAsWritten` | src/main.rs:133-136 | as written, `Dxyn` takes its column from register 13 and its row from register x |
| `Interpreter.DrawOriginCorrected` | src/main.rs:133-136 | corrected, `Dxyn` takes its column from register x and its row from register y |
| `Interpreter.FetchByteOrderAsWritten` | src/main.rs:43-50 | as written, the stored bytes of `00E0` are fetched as E000, and the step panics |
| `Interpreter.FetchByteOrderCorrected` | src/main.rs:43-50 | corrected, the same bytes fetch as 00E0 and the step clears the screen |
| `Interpreter.AddExample` | src/main.rs:97-101 | `8014` with V0 = 250 and V1 = 10 leaves V0 = 4 with the flag set |

## Left out

- The window, the event loop, the Escape key and `update_with_buffer`
  (src/main.rs:21-29, 39, 160-162): user interface and I/O.
- `fs::read` of the program image (src/main.rs:32): file I/O. Loading the image
  through `slice_mut` is modelled by `Ram.ProgramLoadRefused`,
  `Ram.ProgramLoadLengthPanics` and `Ram.ProgramLoadAccepted`.
- `rand::random` (src/main.rs:130): the random byte is the parameter `rnd` of
  `Execute` and `Step`.
- The `todo!()` arms (src/main.rs:146-157) are the outcome `Panicked`. Lines
  154-157 name variants the enum does not have, and `Registers::new`
  (src/main.rs:31) does not exist. The model starts from the all-zero
  `RegisterFile.Zero`.
- The `else` branch of `let Ok(instruction) = Instruction::try_from(..)`
  (src/main.rs:43-52) can never run. `TryFrom` comes from the infallible `From`
  impl, so an undecodable opcode panics inside the decoder instead.
- `SystemAddress` (src/main.rs:54) is the outcome `Spinning`. Its `continue`
  skips the advance, so the loop repeats the same instruction forever.
- The `u32` fold in `draw_byte` (src/main.rs:14) is stated directly: all ones
  for a set bit, 0 otherwise.
- The machine's native byte order for stacked words (src/memory.rs:219, 239):
  the model fixes little-endian. Every stack property rests only on
  `Ram.WordRoundTrip`.
- The timers are never ticked by the loop. `cycle` is modelled but not called
  by `Step`.
- The enum variant `AddAddresssRegister` is spelled `AddAddressRegister` here.
- src/lib.rs: module declarations only.

## Findings

| source | as written | input that shows it | evidently intended | confidence | as-written member | corrected member |
|---|---|---|---|---|---|---|
| src/main.rs:79 | `LoadByte(reg, byte)` indexes the registers with the decoded field `0x60 + x` | any `6xkk`, e.g. `6005`: `get_value_mut(0x60)` is `None`, and the `unwrap` panics | load `kk` into register x | high (not executed) | `Interpreter.LoadByteAsWritten` | `Interpreter.LoadByteCorrected` |
| src/main.rs:133-136 | the origin registers are `position >> 4` and `position & 0xF`, where `position` is `0xD0 + x` | `D125`: the column comes from V13 and the row from V1; V2 is never read | column from Vx, row from Vy | high (not executed) | `Interpreter.DrawOriginAsWritten` | `Interpreter.DrawOriginCorrected` |
| src/main.rs:57 | `pointer = address` is followed by the generic `pointer += 2` | `1300`: the next instruction runs from 0x302 | continue at the target | high (not executed) | `Interpreter.JumpTargetAsWritten` | `Interpreter.JumpTargetCorrected` |
| src/main.rs:56-61 | `Call` pushes its own address; `Return` sets `popped - 2`, and the advance adds 2 | `2300` at 0x200, `00EE` at 0x302: the return lands on 0x200, and the call runs again forever | resume after the call, at the call's address + 2 | high (not executed) | `Interpreter.CallReturnAsWritten` | `Interpreter.CallReturnCorrected` |
| src/main.rs:128 | `JumpAddressOffset` adds I, then the advance adds 2 | `B300` with I = 0x10 and V0 = 0: the pointer becomes 0x312 | jump to `nnn + V0`, as the enum's doc comment says | medium (not executed) | `Interpreter.JumpOffsetAsWritten` | `Interpreter.JumpOffsetCorrected` |
| src/memory.rs:253 | `slice_mut` checks `start >= 200`, decimal | `slice_mut(200..202)` with 61 addresses stacked overwrites the 61st return address | `start >= 0x200`, the write-protection bound used by `store` and `push` | high (not executed) | `Ram.SliceMutCorruptsStack` | `Ram.SliceMutProgramKeepsStack` |
| src/main.rs:43-50 | the opcode is read with `u16::from_le_bytes` | the program bytes `00 E0` are fetched as E000, which the decoder rejects with `todo!()` | big-endian, as CHIP-8 program images store opcodes | high (not executed) | `Interpreter.FetchByteOrderAsWritten` | `Interpreter.FetchByteOrderCorrected` |
| src/main.rs:32-36 | `slice_mut(0x200..0x1000)`, but `slice_mut` demands `end <= 0xFFF` | every run: the slice is `None`, and the `unwrap` panics before the first instruction | copy the image into the program region starting at 0x200 | high (not executed) | `Ram.ProgramLoadRefused` | `Ram.ProgramLoadAccepted` |
| src/main.rs:34-36 | `copy_from_slice(&application)` into the whole region `0x200..0x1000`, which needs an image of exactly 0xE00 bytes | with the bound fixed, any shorter image, e.g. a 246-byte program, still makes `copy_from_slice` panic | copy into `0x200..0x200 + len` | high (not executed) | `Ram.ProgramLoadLengthPanics` | `Ram.ProgramLoadAccepted` |
