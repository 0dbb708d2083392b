# teal8 CHIP-8 interpreter: sequential core in Dafny

This project models the sequential logic of the teal8 CHIP-8/SCHIP emulator
that surrounds its opcode engine:

- the 16-slot return-address stack of `src/stack.c`. The older sentinel-based
  stack functions of `src/emulator.c` are modelled separately, together with
  the way they diverge from `src/stack.c`;
- the memory image: the 80-byte hexadecimal font and the program copy at
  0x200 into the 4 KiB memory;
- `randomNumber`, rejection sampling over the values of `rand()`;
- one iteration of the host loop in `src/chip8.c`. That covers the 60 Hz
  delay/sound timers with `uint32_t` elapsed-time arithmetic, starting and
  stopping the tone, key-release clearing, restart handling, the
  fetch / `pc += 2` / execute order, the dirty-flag redraw, and the default
  instruction rate;
- two helpers of `src/file.c`: the curl write callback that appends to a
  NUL-terminated buffer, and the 40-digit lowercase hex form of a SHA-1
  digest;
- the data model of `include/emulator.h`, `include/display.h`,
  `include/timers.h` and `include/stack.h`.

Modules, one per component: `Ints` (the C unsigned widths and their
wrap-around), `Wrappers` (`Option`), `Stack`, `LegacyStack`, `Display`,
`Emulator`, `MemoryImage`, `Random`, `HostLoop`, `CurlBuffer`, `Hex`.

Things the model takes as inputs or parameters:

- The font base is a parameter, required only to satisfy
  end − start + 1 = 80. `chip8.c` uses 0x050..0x09F (lines 11-12).
  `include/emulator.h` documents 0x00..0x50 for `writeFontToMemory` of
  `src/emulator.c`, and the `FONT_START_ADDRESS` that function uses is not
  defined in `src/emulator.c` or in any header it includes.
- Each `rand()` call is an element of an input sequence.
- In the host loop, these are inputs: the scheduler's "slot due" decision,
  the tick count, whether the ROM reopens, and whether a redraw succeeds.
- In the host loop, these are function parameters: event handling,
  `initializeEmulator`, `fetchOpcode` and `decodeAndExecuteOpcode`.
- For the curl buffer, allocation success is an input.
- For `getHash`, the digest is an opaque input.

A stricter CHIP-8 design would differ from this code in three places. The
model follows the code:

- Stack overflow and underflow are silent no-ops, not errors.
- The program copy has no truncation. Its size limit is a precondition.
- `sp` reaches 16, although the header comment says 0x0–0xF.

## Model

| member | source | states |
|---|---|---|
| Stack.Stacked | src/stack.c:3-7 | the result is the number of stacked addresses (the length of the stack's contents) and lies in 0..16 |
| Stack.Push | src/stack.c:9-16 | below capacity the value lands in slot `sp`, `sp` grows by one, the contents gain the value on top and every other slot is unchanged; on a full stack nothing changes; `0 <= sp <= 16` is preserved |
| Stack.Pop | src/stack.c:18-25 | on a non-empty stack `sp` drops by one and the output is the old top, so contents plus output equal the old contents; the slot array is never modified; on an empty stack the stack and the output cell are unchanged |
| Stack.PushThenPop | src/stack.c:9-25 | pushing v then popping yields v and restores `sp` and the stacked contents |
| Stack.PushAllAppends | src/stack.c:12-15 | a run of pushes that fits appends its values, in order, to the contents |
| Stack.PopNReverses | src/stack.c:21-24 | popping k addresses returns the top k in last-in first-out order and leaves the addresses below |
| Stack.PushAllThenPopN | src/stack.c:9-25 | pushes followed by as many pops return the values reversed and leave the original contents |
| Stack.SeventeenthPushIgnored | src/stack.c:12-16 | sixteen pushes from empty all land; the seventeenth is a silent no-op |
| LegacyStack.FirstZero | src/emulator.c:119-120 | the scan stops at the first zero word: that word is zero and every earlier one is not |
| LegacyStack.Stacked | src/emulator.c:116-122 | the result is the index of the first zero slot (16 when only the word after the array is zero) and every slot below it is non-zero |
| LegacyStack.Push | src/emulator.c:124-133 | below 16 in use, the value is written at index `stacked`, `sp` increments as a `uint8_t`, and the other slots are unchanged; otherwise the state is unchanged |
| LegacyStack.Pop | src/emulator.c:135-145 | on a non-empty stack `sp` decrements as a `uint8_t` and the output is `s[stacked - 1]`; on an empty stack stack and output are unchanged |
| LegacyStack.PopRepeatsTop | src/emulator.c:135-145 | the as-written pop leaves the slots untouched, so `stacked` stays while `sp` moves, and a second pop returns the same address |
| LegacyStack.PopDivergesFromStack | src/emulator.c:124-145 | after pushing 1 and 2, two legacy pops yield 2 and 2, while the pops of src/stack.c yield 2 and 1 |
| LegacyStack.PopFixed | src/emulator.c:135-141 | the corrected pop outputs `s[stacked - 1]` and clears that slot; on an empty stack nothing changes |
| LegacyStack.PopFixedUndoesPush | src/emulator.c:124-141 | on a clean sentinel stack that is not full, pushing a non-zero address and popping with the corrected pop returns that address and restores the stack exactly |
| LegacyStack.PushFillsLastSlot | src/emulator.c:116-132 | pushing onto fifteen entries with `sp` at 0 fills the last slot and sets `sp` to 1, after which only a zero word after the slots lets the scan stop, and the `sp` word is no longer zero |
| Display.ClearKeys | include/display.h:87-93 | all sixteen key states become false |
| Display.ResetDisplay | include/display.h:37-42 | every pixel is cleared, the pixel count is kept, no other field changes, and display validity is preserved |
| Display.ResetDisplayIdempotent | include/display.h:37-42 | clearing an already cleared display changes nothing |
| Display.ForgetReleases | src/chip8.c:312 | every key-release flag is lowered, every other display field is kept, and display validity is preserved |
| Emulator.SpecOfTag | include/emulator.h:19-36 | a `specType` byte names a dialect exactly when it is 100 (`CHIP8`) or 101 (`SCHIP`) |
| Emulator.SpecTagRoundTrip | include/emulator.h:19-20 | tags and dialects correspond one to one |
| MemoryImage.Splice | src/emulator.c:67-68 | every address inside the written range holds the table's byte at the same offset, and every other address keeps its old byte |
| MemoryImage.SpliceIdempotent | src/emulator.c:67-68 | copying the same table to the same place twice leaves the memory as one copy did |
| MemoryImage.SpliceCommute | src/emulator.c:67-77 | two copies into disjoint ranges give the same memory in either order |
| MemoryImage.SpliceSlice | src/emulator.c:67-68 | any stretch inside the written range reads back as the matching stretch of the table |
| MemoryImage.WriteTable | src/emulator.c:67-68 | the copy loop over `loc` from start to end inclusive produces exactly the table spliced into the old memory |
| MemoryImage.WriteFontToMemory | src/emulator.c:46-69 | after the loop, `memory[start + k]` is font byte k for all 80 bytes, no address outside start..end changes, and the image equals the font spliced into the old memory |
| MemoryImage.WriteFontChip8 | chip8.c:10-50 | with the constants of chip8.c the font occupies 0x050..0x09F and no other address is written |
| MemoryImage.WithFontIdempotent | chip8.c:27-50 | writing the font twice gives the same memory as writing it once |
| MemoryImage.GlyphAt | chip8.c:29-46 | the glyph of hex digit d is the five bytes at start + 5d |
| MemoryImage.SpliceExtend | src/emulator.c:71-77 | storing the next program byte at the cursor extends the copied prefix by exactly that byte |
| MemoryImage.WriteRomToMemory | src/emulator.c:71-77 | ROM byte k lands at 0x200 + k, memory below 0x200 and above the program is unchanged, nothing else in the machine changes, and `pc` ends at 0x200 whatever the ROM length |
| MemoryImage.FontSurvivesRom | src/emulator.c:46-77 | a font below 0x200 survives the program copy, and the two writes commute |
| Random.Threshold | src/emulator.c:102-109 | the acceptance bound is a multiple of the range not above `RAND_MAX`; it is zero when the range exceeds `RAND_MAX` and at least the range otherwise |
| Random.RandomNumber | src/emulator.c:89-114 | equal bounds return that bound without consuming a roll; otherwise a result exists exactly when some roll is below the threshold, it comes from the first such roll as `x % range + min`, all earlier rolls were rejected, and it lies between the smaller and the larger bound whichever order they were given in |
| Random.NoResultWhenRangeTooWide | src/emulator.c:102-111 | with a range above `RAND_MAX` every roll is rejected, so the loop never exits |
| Random.EvenlyDivided | src/emulator.c:104-109 | among the values 0 .. q·range − 1, each residue modulo the range occurs exactly q times |
| Random.AcceptedRollsUniform | src/emulator.c:102-113 | every value between the bounds is produced by exactly `RAND_MAX / range` accepted roll values |
| HostLoop.TickTimers | src/chip8.c:276-304 | after at least 16 ms (elapsed time as `uint32_t` subtraction), delay and sound drop by one toward zero without wrapping, a positive sound counter starts the tone and a zero one stops it and resets the phase (unmuted only), and the update time becomes the tick; otherwise the counters and tone stay and the update time is only pulled back to an earlier tick; muted, the tone is never touched; the loop itself writes the audio phase only when it stops a playing tone |
| HostLoop.PullBackOnlyAfterWrap | src/chip8.c:280-304 | the pull-back branch is reached only when the update time is ahead of the clock by more than 2^32 − 16 ms, just after the millisecond counter wrapped |
| HostLoop.TimersCountDown | src/chip8.c:280-294 | after n due updates both counters have dropped by n, stopping at zero |
| HostLoop.ToneStopsAfterCountdown | src/chip8.c:284-300 | unmuted, after sound + 1 due updates the counter is zero and the tone is off |
| HostLoop.EffectiveRate | src/chip8.c:136-170 | the instruction rate is always positive: 1000 by default, the given value when it fits a `uint16_t`, that value modulo 2^16 otherwise, and 1000 when that is zero |
| HostLoop.HandleEvents | src/chip8.c:311-316 | event handling changes only the display record, and the handler runs on the display with every key release already forgotten |
| HostLoop.NoReleaseWithoutEvent | src/chip8.c:311-316 | a key release is visible for one iteration only: if the handler reports no release, every release flag is down after event handling |
| HostLoop.EarlierReleasesIgnored | src/chip8.c:311-316 | the release flags left by the previous iteration have no influence on event handling |
| HostLoop.Restart | src/chip8.c:323-333 | a restart clears the pixels and lowers the reset flag, keeping the pixel count; the machine is re-initialised only if the ROM reopens; in either case no machine or display field other than pixels and flag differs from the (re-initialised or current) machine |
| HostLoop.Step | src/chip8.c:264-373 | the loop stops with 0 exactly when powered off; it idles exactly when powered on with no slot due, and stops only with 0 or -1; otherwise the timers are updated and events handled first, and a restart is served exactly when the handled display requests one, instead of an instruction, and otherwise an instruction is executed unless a failed redraw ends the loop; an executed instruction is fetched from the updated machine with the unchanged `pc` and memory, executed with `pc` advanced by exactly 2, and is followed by a redraw exactly when the display is dirty, after which `dirty` is false; the loop ends with -1 exactly when a dirty display fails to redraw |
| HostLoop.StepPreservesValid | src/chip8.c:264-373 | one pass keeps the machine well formed (memory, register and key array sizes, a known dialect, a valid stack and display) whenever the event handler, re-initialisation and opcode engine do |
| HostLoop.PcAdvancesByTwo | src/chip8.c:336-345 | with an engine that leaves `pc` alone, an executed iteration moves `pc` on by exactly 2 modulo 2^16 |
| CurlBuffer.Initial | src/file.c:163-179 | the starting buffer holds no data |
| CurlBuffer.WriteMemoryCallback | src/file.c:11-33 | on success the old bytes are kept, the new bytes follow them, the size grows by `size × nmemb`, which is returned, and the buffer is NUL-terminated at the new size; on allocation failure 0 is returned and the buffer is unchanged |
| CurlBuffer.AppendAllConcatenates | src/file.c:11-33 | however the transfer is chunked, the buffer ends up holding the old data followed by all chunks in order |
| CurlBuffer.TwoCallsAsOne | src/file.c:14-30 | two successful callbacks leave the same buffer as one callback with both pieces |
| Hex.HexDigit | src/file.c:114-115 | each nibble becomes one lowercase hexadecimal digit |
| Hex.DigitValue | src/file.c:114-115 | exactly the lowercase hexadecimal digits have a value, and it maps back to the digit |
| Hex.EncodeAt | src/file.c:114-115 | byte i becomes its high nibble's digit at 2i and its low nibble's digit at 2i + 1 |
| Hex.DecodeEncode | src/file.c:114-117 | decoding the hex text recovers the digest bytes |
| Hex.EncodeDecode | src/file.c:114-117 | text that decodes is exactly the encoding of its decoding (lowercase, two digits per byte) |
| Hex.HashString | src/file.c:105-117 | the 41-character result holds the 40-digit encoding, high nibble first, with the terminator at index 40 |
| Hex.GetHash | src/file.c:68-120 | the result is absent exactly when the SHA-1 context or the string allocation fails; otherwise it is 41 characters, NUL-terminated, and decodes back to the digest |

## Left out

- The opcode engine is not part of this model: `fetchOpcode`, `decodeAndExecuteOpcode` and `initializeEmulator` are declared in `include/emulator.h` but their bodies are not among the modelled files. The host loop receives them as function parameters, and the model assumes no byte order for fetch. Fetch is a pure function of the machine: the model assumes `fetchOpcode`, which takes a non-const pointer, changes nothing, and HostLoop.Step's claim that execution starts from the unchanged `pc` rests on that.
- Audio tone generation and SDL audio setup (`src/audio.c`) are floating-point and device I/O. The loop's `SDL_PauseAudioDevice` calls are represented only by the `playing` flag.
- HostLoop.TickTimers: the audio phase is also advanced by `audioCallback` on SDL's audio thread (`src/audio.c`), with no synchronisation against the loop's reset of the phase. The model states only the loop's own writes and says nothing about the callback's.
- The SDL rendering glue in `src/display.c` and the SDL demo `main` of `chip8.c` are left out. `src/display.c` is also a stale snapshot whose fields do not match `include/display.h`.
- Several parts of `src/chip8.c` are left out: executable-path discovery, `getopt_long` parsing apart from the rate default, SDL start-up and clean-up, and the floating-point instruction scheduler. The scheduler is reduced to a "slot due" boolean, and re-arming it on restart is not modelled.
- From `src/file.c`, `pullDatabase`, `isRomInDatabase`, `printRomInfo` and `isFileValid` are left out: they are curl networking, cJSON lookups and logging. The SHA-1 computation itself is OpenSSL's.
- `getRom` (file opening with extension fallbacks) and `printMemory` (stdout) are I/O.
- The struct in `chip8.c` with 8-bit stack slots and signed timers is superseded by `include/emulator.h` and `include/timers.h`.
- LegacyStack.Stacked: when all sixteen slots are non-zero the C scan reads past the array. In the `stack` struct of `include/stack.h` that word is made of `sp` and the padding byte after it, so a full legacy stack with `sp` non-zero has no zero in reach. The model takes the word read there as the parameter `beyond` and requires a zero within those 17 words. That excludes the scans of `stacked` and the legacy push that would run past the struct.
- LegacyStack.Pop: with all sixteen slots in use, the C pop calls `stacked` again after `sp--`. The zero it found beyond the slots belongs to `sp`, so that word is now non-zero and the second scan runs past the struct, which is undefined behaviour. The model keeps `beyond` fixed across the pop, returns `s[15]` and writes nothing in that case. The same applies to LegacyStack.PopRepeatsTop. Below sixteen slots in use, the second scan meets the same zero slot and the model is exact.
- LegacyStack.PopFixedUndoesPush: `Clean` asks for `beyond` to be 0, and that word holds `sp`, so a clean stack has `sp` 0. With fifteen entries, the push sets `sp` to 1, and the word after the slots is then non-zero. The model keeps `beyond` at 0 across the push, so for that case the lemma states the restoration the fixed `beyond` gives, not what C does: its re-scan would run past the struct. LegacyStack.PushFillsLastSlot states that corner.
- MemoryImage.WriteRomToMemory: the C loop writes past memory for a program over 0xE00 bytes. The model requires the program to fit rather than modelling the overflow.
- MemoryImage.WriteFontToMemory: the base address is a parameter, because the constant used by `src/emulator.c` is not defined in that file or in any header it includes.
- Random.RandomNumber: `rand()` values come from a finite sequence. Running out of values yields no result, which stands for the loop still running. The `int` arguments must be such that `max - min + 1` does not overflow.
- HostLoop.EffectiveRate: the value is taken as already converted by `atoi`. Overflow inside `atoi` is undefined behaviour and is not modelled.
- HostLoop.Step: log messages, the `nextInstructionTime` arithmetic and the drawing itself are left out. Drawing is reduced to a success flag.
- Display.ResetDisplay: the body of `resetDisplay` is not part of this model; its header says only that the pixels are cleared. That every other display field, `dirty` included, is left alone is an assumption, and HostLoop.Restart relies on it.
- Display.Valid: no modelled line sets `width`, `height`, `pixelWidth` or `pixelHeight`. The model reads `width`/`height` as window pixels and the cached `pixelWidth`/`pixelHeight` = width / `SCALE`, height / `SCALE` as the 64×32 or 128×64 grid. The other reading, `width` being 64 or 128 itself, would make the cached values 6×3 or 12×6 and would not match the header's "cached width / SCALE". Both readings are assumptions.
- CurlBuffer.WriteMemoryCallback: `realloc` is modelled by its effect on the buffer's bytes, and the model requires that `size_t` arithmetic does not wrap.

## Findings

| source | as written | input that shows it | evidently intended | confidence | as-written member | corrected member |
|---|---|---|---|---|---|---|
| src/emulator.c:135-145 | the legacy `stackPop` writes 0 to `s[stacked]`, which already holds 0. The top entry is never cleared, so `stacked` never shrinks | push 1 and 2 onto an empty stack, then pop twice: both pops return 2 | clear `s[stacked - 1]`, the entry just popped | high; not executed | LegacyStack.PopRepeatsTop | LegacyStack.PopFixedUndoesPush |
