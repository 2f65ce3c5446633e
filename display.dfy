/** The screen interface the engine draws through, modelled as a recording sink. */
module Display {

  /** The two colours the engine ever passes: all channels at 255 and all at 0. */
  datatype Color = White | Black

  /** One call made on the screen. */
  datatype Event = SetPixel(i: nat, j: nat, color: Color) | Refresh

  /**
   * An abstract screen. What a concrete backend does with a pixel is not
   * modelled; the screen only remembers, in order, the calls it received.
   */
  class Screen {
    ghost var log: seq<Event>

    constructor ()
      ensures log == []
    {
      log := [];
    }

    /** Sets the pixel (i, j) of the screen buffer to `color`. */
    method SetPixel(i: nat, j: nat, color: Color)
      modifies this
      ensures log == old(log) + [Event.SetPixel(i, j, color)]
    {
      log := log + [Event.SetPixel(i, j, color)];
    }

    /** Flushes the screen buffer to the visible surface. */
    method Refresh()
      modifies this
      ensures log == old(log) + [Event.Refresh]
    {
      log := log + [Event.Refresh];
    }
  }
}
