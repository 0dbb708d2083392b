/**
 The machine record of include/emulator.h with the timers of
 include/timers.h and the sound fields of include/audio.h that the host loop
 touches.
 */
module Emulator {
  import opened Ints
  import opened Wrappers
  import Stack
  import Display

  /** `AMOUNT_MEMORY_BYTES`: 4 KiB of memory. */
  const MemoryBytes: nat := 0x1000
  /** `AMOUNT_REGISTERS`: V0 to VF. */
  const Registers: nat := 16
  /** Where programs are loaded and where the program counter starts. */
  const ProgramStart: nat := 0x200
  /** `DEFAULT_IPS`: instructions per second when none is configured. */
  const DefaultIps: nat := 1000

  /** The dialect tag kept in `specType`. */
  datatype Spec = Chip8 | Schip {
    /** The `CHIP8` / `SCHIP` value stored in the `uint8_t` field. */
    function Tag(): (t: u8)
      ensures t == 100 || t == 101
    {
      match this
      case Chip8 => 100
      case Schip => 101
    }
  }

  /** Reads a `specType` byte back; any byte other than the two tags has no dialect. */
  function SpecOfTag(t: u8): (r: Option<Spec>)
    ensures r.Some? <==> t == 100 || t == 101
  {
    if t == 100 then Some(Chip8) else if t == 101 then Some(Schip) else None
  }

  /** Tags and dialects are in one-to-one correspondence. */
  lemma SpecTagRoundTrip(s: Spec, t: u8)
    ensures SpecOfTag(s.Tag()) == Some(s)
    ensures SpecOfTag(t) == Some(s) ==> s.Tag() == t
  {
  }

  /** `timers`: delay and sound counters and the tick of their last update. */
  datatype Timers = Timers(delay: u8, sound: u8, lastUpdate: u32)

  /** The fields of `audio` the host loop changes; the phase is the tone generator's. */
  datatype Audio = Audio(playing: bool, poweredOn: bool, phase: real)

  /** `emulator`. */
  datatype Machine = Machine(
    memory: seq<u8>,
    v: seq<u8>,
    specType: u8,
    i: u16,
    pc: u16,
    lastUpdate: u32,
    timers: Timers,
    stack: Stack.ReturnStack,
    display: Display.DisplayState,
    sound: Audio,
    muted: bool)

  /** The array sizes of the C struct and the invariants of its parts. */
  predicate Valid(m: Machine) {
    && |m.memory| == MemoryBytes
    && |m.v| == Registers
    && SpecOfTag(m.specType).Some?
    && Stack.Valid(m.stack)
    && Display.Valid(m.display)
  }
}
