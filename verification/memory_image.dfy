/**
 Setting up the memory image: the 80-byte hexadecimal font
 (`writeFontToMemory` of src/emulator.c, `write_font_to_memory` of chip8.c)
 and the program copy at 0x200 (`writeRomToMemory`).

 The font base differs between the two files: chip8.c places the font at
 0x050..0x09F, while include/emulator.h documents 0x00..0x50 for the
 function of src/emulator.c, and the constant that function uses is not
 defined in src/emulator.c or in any header it includes. The base is
 therefore a parameter, constrained only by the 80-byte length.
 */
module MemoryImage {
  import opened Ints
  import Emulator

  /** `FONT_IN_BYTES`. */
  const FontBytes: nat := 80
  /** Bytes per glyph: one row of four pixels per byte, five rows. */
  const GlyphBytes: nat := 5

  /** The sixteen glyphs 0..F, five rows each, high nibble drawn. */
  const Font: seq<u8> := [
    0xF0, 0x90, 0x90, 0x90, 0xF0, // 0
    0x20, 0x60, 0x20, 0x20, 0x70, // 1
    0xF0, 0x10, 0xF0, 0x80, 0xF0, // 2
    0xF0, 0x10, 0xF0, 0x10, 0xF0, // 3
    0x90, 0x90, 0xF0, 0x10, 0x10, // 4
    0xF0, 0x80, 0xF0, 0x10, 0xF0, // 5
    0xF0, 0x80, 0xF0, 0x90, 0xF0, // 6
    0xF0, 0x10, 0x20, 0x40, 0x40, // 7
    0xF0, 0x90, 0xF0, 0x90, 0xF0, // 8
    0xF0, 0x90, 0xF0, 0x10, 0xF0, // 9
    0xF0, 0x90, 0xF0, 0x90, 0x90, // A
    0xE0, 0x90, 0xE0, 0x90, 0xE0, // B
    0xF0, 0x80, 0x80, 0x80, 0xF0, // C
    0xE0, 0x90, 0x90, 0x90, 0xE0, // D
    0xF0, 0x80, 0xF0, 0x80, 0xF0, // E
    0xF0, 0x80, 0xF0, 0x80, 0x80  // F
  ]

  /** `FONT_START_ADDRESS` and `FONT_END_ADDRESS` of chip8.c. */
  const Chip8FontStart: nat := 0x050
  const Chip8FontEnd: nat := 0x09F

  /** A font range `start..end` (inclusive) inside memory that holds exactly the font. */
  predicate FontRange(start: int, end: int) {
    0 <= start && end < Emulator.MemoryBytes && end - start + 1 == FontBytes
  }

  /** `mem` with `bytes` stored from address `at` on and every other byte kept. */
  function Splice(mem: seq<u8>, at: nat, bytes: seq<u8>): (r: seq<u8>)
    requires at + |bytes| <= |mem|
    ensures |r| == |mem|
    ensures forall k :: 0 <= k < |bytes| ==> r[at + k] == bytes[k]
    ensures forall a :: 0 <= a < |mem| && !(at <= a < at + |bytes|) ==> r[a] == mem[a]
  {
    mem[..at] + bytes + mem[at + |bytes|..]
  }

  /** Storing the same bytes twice at the same place is the same as storing them once. */
  lemma SpliceIdempotent(mem: seq<u8>, at: nat, bytes: seq<u8>)
    requires at + |bytes| <= |mem|
    ensures Splice(Splice(mem, at, bytes), at, bytes) == Splice(mem, at, bytes)
  {
    var once := Splice(mem, at, bytes);
    var twice := Splice(once, at, bytes);
    assert forall a :: 0 <= a < |mem| ==> twice[a] == once[a];
  }

  /** Stores to disjoint ranges commute. */
  lemma SpliceCommute(mem: seq<u8>, at1: nat, b1: seq<u8>, at2: nat, b2: seq<u8>)
    requires at1 + |b1| <= at2 && at2 + |b2| <= |mem|
    ensures Splice(Splice(mem, at1, b1), at2, b2) == Splice(Splice(mem, at2, b2), at1, b1)
  {
    var x1 := Splice(mem, at1, b1);
    var y1 := Splice(mem, at2, b2);
    var x := Splice(x1, at2, b2);
    var y := Splice(y1, at1, b1);
    forall a | 0 <= a < |mem|
      ensures x[a] == y[a]
    {
      if at1 <= a < at1 + |b1| {
        assert x[a] == x1[a] == b1[a - at1];
        assert y[at1 + (a - at1)] == b1[a - at1];
      } else if at2 <= a < at2 + |b2| {
        assert x[at2 + (a - at2)] == b2[a - at2];
        assert y[a] == y1[a] == b2[a - at2];
      } else {
        assert x[a] == x1[a] == mem[a];
        assert y[a] == y1[a] == mem[a];
      }
    }
  }

  /**
   The loop shape of the font writers: for each address `loc` from `start` to
   `end` inclusive, store table entry `loc - start`.
   */
  method WriteTable(mem: seq<u8>, start: nat, end: nat, table: seq<u8>) returns (r: seq<u8>)
    requires end < |mem| && |table| == end - start + 1
    ensures r == Splice(mem, start, table)
  {
    r := mem;
    var loc := start;
    while loc <= end
      invariant start <= loc <= end + 1
      invariant |r| == |mem|
      invariant forall a :: start <= a < loc ==> r[a] == table[a - start]
      invariant forall a :: 0 <= a < |mem| && !(start <= a < loc) ==> r[a] == mem[a]
    {
      r := r[loc := table[loc - start]];
      loc := loc + 1;
    }
    var spliced := Splice(mem, start, table);
    forall a | 0 <= a < |r|
      ensures r[a] == spliced[a]
    {
      if start <= a <= end {
        assert spliced[start + (a - start)] == table[a - start];
      }
    }
  }

  /** The memory image with the font at `start` and every other byte kept. */
  function WithFont(mem: seq<u8>, start: nat): (r: seq<u8>)
    requires start + FontBytes <= |mem|
    ensures |r| == |mem|
  {
    Splice(mem, start, Font)
  }

  /** `writeFontToMemory`: font byte `k` goes to `start + k` for the 80 font bytes. */
  method WriteFontToMemory(mem: seq<u8>, start: nat, end: nat) returns (r: seq<u8>)
    requires |mem| == Emulator.MemoryBytes
    requires FontRange(start, end)
    ensures |r| == |mem|
    ensures forall k :: 0 <= k < FontBytes ==> r[start + k] == Font[k]
    ensures forall a :: 0 <= a < |mem| && !(start <= a <= end) ==> r[a] == mem[a]
    ensures r == WithFont(mem, start)
  {
    r := WriteTable(mem, start, end, Font);
  }

  /** `write_font_to_memory` of chip8.c: the font at 0x050..0x09F. */
  method WriteFontChip8(mem: seq<u8>) returns (r: seq<u8>)
    requires |mem| == Emulator.MemoryBytes
    ensures |r| == |mem|
    ensures forall k :: 0 <= k < FontBytes ==> r[Chip8FontStart + k] == Font[k]
    ensures forall a :: 0 <= a < |mem| && !(Chip8FontStart <= a <= Chip8FontEnd) ==> r[a] == mem[a]
  {
    r := WriteFontToMemory(mem, Chip8FontStart, Chip8FontEnd);
  }

  /** Writing the font a second time leaves the image as the first write left it. */
  lemma WithFontIdempotent(mem: seq<u8>, start: nat)
    requires start + FontBytes <= |mem|
    ensures WithFont(WithFont(mem, start), start) == WithFont(mem, start)
  {
    SpliceIdempotent(mem, start, Font);
  }

  /** The glyph of hexadecimal digit `d` is the five bytes at `start + 5 * d`. */
  lemma GlyphAt(mem: seq<u8>, start: nat, d: nat)
    requires start + FontBytes <= |mem| && d < 16
    ensures WithFont(mem, start)[start + GlyphBytes * d .. start + GlyphBytes * d + GlyphBytes]
         == Font[GlyphBytes * d .. GlyphBytes * d + GlyphBytes]
  {
    var g := GlyphBytes * d;
    assert g + GlyphBytes <= FontBytes;
    SpliceSlice(mem, start, Font, g, g + GlyphBytes);
  }

  /** Any stretch inside the spliced region reads back the matching stretch of `bytes`. */
  lemma SpliceSlice(mem: seq<u8>, at: nat, bytes: seq<u8>, lo: nat, hi: nat)
    requires at + |bytes| <= |mem| && lo <= hi <= |bytes|
    ensures Splice(mem, at, bytes)[at + lo .. at + hi] == bytes[lo .. hi]
  {
    var r := Splice(mem, at, bytes);
    forall k | 0 <= k < hi - lo
      ensures r[at + lo .. at + hi][k] == bytes[lo .. hi][k]
    {
      assert r[at + lo + k] == bytes[lo + k];
    }
  }

  /** The memory image with `rom` at `PROGRAM_START_ADDRESS` and every other byte kept. */
  function WithRom(mem: seq<u8>, rom: seq<u8>): (r: seq<u8>)
    requires Emulator.ProgramStart + |rom| <= |mem|
    ensures |r| == |mem|
  {
    Splice(mem, Emulator.ProgramStart, rom)
  }

  /**
   `writeRomToMemory`: the program counter serves as the write cursor,
   starting at 0x200 and advancing one byte per byte read, and is set back to
   0x200 at the end. The C loop has no bound check, so the program must fit
   in the 0xE00 bytes above 0x200.
   */
  method WriteRomToMemory(m: Emulator.Machine, rom: seq<u8>) returns (r: Emulator.Machine)
    requires |m.memory| == Emulator.MemoryBytes
    requires |rom| <= Emulator.MemoryBytes - Emulator.ProgramStart
    ensures r.pc == Emulator.ProgramStart
    ensures |r.memory| == |m.memory|
    ensures forall k :: 0 <= k < |rom| ==> r.memory[Emulator.ProgramStart + k] == rom[k]
    ensures forall a :: 0 <= a < Emulator.ProgramStart ==> r.memory[a] == m.memory[a]
    ensures forall a :: Emulator.ProgramStart + |rom| <= a < |m.memory| ==> r.memory[a] == m.memory[a]
    ensures r == m.(memory := WithRom(m.memory, rom), pc := Emulator.ProgramStart)
  {
    var mem := m.memory;
    var pc: u16 := Emulator.ProgramStart;
    var k := 0;
    while k < |rom|
      invariant 0 <= k <= |rom|
      invariant pc == Emulator.ProgramStart + k
      invariant mem == Splice(m.memory, Emulator.ProgramStart, rom[..k])
    {
      SpliceExtend(m.memory, Emulator.ProgramStart, rom, k);
      mem := mem[pc := rom[k]];
      pc := pc + 1;
      k := k + 1;
    }
    assert rom[..k] == rom;
    r := m.(memory := mem, pc := Emulator.ProgramStart);
  }

  /** Storing the next table byte extends the spliced prefix by one. */
  lemma SpliceExtend(mem: seq<u8>, at: nat, bytes: seq<u8>, k: nat)
    requires k < |bytes| && at + |bytes| <= |mem|
    ensures Splice(mem, at, bytes[..k])[at + k := bytes[k]] == Splice(mem, at, bytes[..k + 1])
  {
    var x := Splice(mem, at, bytes[..k])[at + k := bytes[k]];
    var y := Splice(mem, at, bytes[..k + 1]);
    forall a | 0 <= a < |mem|
      ensures x[a] == y[a]
    {
      if at <= a < at + k + 1 {
        assert y[at + (a - at)] == bytes[..k + 1][a - at];
      }
    }
  }

  /**
   A font that lies below 0x200 survives the program copy, and the two writes
   commute: the loaded image is the same whichever is written first.
   */
  lemma FontSurvivesRom(mem: seq<u8>, start: nat, rom: seq<u8>)
    requires start + FontBytes <= Emulator.ProgramStart
    requires Emulator.ProgramStart + |rom| <= |mem|
    ensures WithRom(WithFont(mem, start), rom)[start .. start + FontBytes] == Font
    ensures WithRom(WithFont(mem, start), rom) == WithFont(WithRom(mem, rom), start)
  {
    SpliceCommute(mem, start, Font, Emulator.ProgramStart, rom);
    var b := WithFont(WithRom(mem, rom), start);
    assert b[start .. start + FontBytes] == Font;
  }
}
