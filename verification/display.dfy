/**
 The display record of include/display.h as far as the emulator core uses it:
 the two resolutions, the lit-pixel flags, the power, reset and dirty flags,
 and the sixteen key-down and key-released flags.
 */
module Display {
  import opened Ints

  /** `AMOUNT_KEYS`: keys 0x0 to 0xF. */
  const AmountKeys: nat := 16
  /** `SCALE`: window pixels per emulated pixel. */
  const Scale: nat := 10

  datatype Resolution = Resolution(width: int, height: int)

  /** `CHIP8_WIDTH` x `CHIP8_HEIGHT`. */
  const Chip8Resolution: Resolution := Resolution(64, 32)
  /** `SCHIP_WIDTH` x `SCHIP_HEIGHT`. */
  const SchipResolution: Resolution := Resolution(128, 64)

  /** The fields of the C `display` struct other than the SDL handles and rectangles. */
  datatype DisplayState = DisplayState(
    pixelDrawn: seq<bool>,
    poweredOn: bool,
    reset: bool,
    keyDown: seq<bool>,
    keyUp: seq<bool>,
    dirty: bool,
    lastUpdate: u32,
    width: int,
    height: int,
    pixelWidth: int,
    pixelHeight: int)

  /**
   The shape the header documents: sixteen flags in each key vector, and
   `pixelWidth`/`pixelHeight` caching the window's width and height divided by
   `SCALE`, which gives the grid of one of the two resolutions.
   */
  predicate Valid(d: DisplayState) {
    && |d.keyDown| == AmountKeys
    && |d.keyUp| == AmountKeys
    && Resolution(d.pixelWidth, d.pixelHeight) in {Chip8Resolution, SchipResolution}
    && d.pixelWidth == d.width / Scale
    && d.pixelHeight == d.height / Scale
  }

  /** `clearKeys`: every one of the sixteen key states becomes false. */
  function ClearKeys(keys: seq<bool>): (r: seq<bool>)
    requires |keys| == AmountKeys
    ensures |r| == AmountKeys
    ensures forall k :: 0 <= k < |r| ==> !r[k]
  {
    seq(AmountKeys, _ => false)
  }

  /** `clearKeys` applied to the release flags: every release is forgotten and nothing else changes. */
  function ForgetReleases(d: DisplayState): (r: DisplayState)
    requires |d.keyUp| == AmountKeys
    ensures |r.keyUp| == AmountKeys
    ensures forall k :: 0 <= k < AmountKeys ==> !r.keyUp[k]
    ensures r.(keyUp := d.keyUp) == d
    ensures Valid(d) ==> Valid(r)
  {
    d.(keyUp := ClearKeys(d.keyUp))
  }

  /** `resetDisplay`: every pixel is cleared and nothing else changes. */
  function ResetDisplay(d: DisplayState): (r: DisplayState)
    ensures |r.pixelDrawn| == |d.pixelDrawn|
    ensures forall p :: 0 <= p < |r.pixelDrawn| ==> !r.pixelDrawn[p]
    ensures r.(pixelDrawn := d.pixelDrawn) == d
    ensures Valid(d) ==> Valid(r)
  {
    d.(pixelDrawn := seq(|d.pixelDrawn|, _ => false))
  }

  /** Clearing is idempotent: resetting a reset display changes nothing. */
  lemma ResetDisplayIdempotent(d: DisplayState)
    ensures ResetDisplay(ResetDisplay(d)) == ResetDisplay(d)
  {
  }
}
