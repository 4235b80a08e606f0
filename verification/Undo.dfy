/** Xor drawing with the three figure routines. */
module Undo {
  import opened Screen
  import opened Line
  import opened Box
  import opened Circle

  /** In xor mode, with colour 0 or 1, drawing the same line, box or circle again takes it away
      again, byte for byte, although boxes and circles plot some of their pixels several times. */
  lemma FiguresUndoThemselves(buf: Buffer, mode: Mode, x1: int, y1: int, x2: int, y2: int, r: int,
                              thick: int, fill: bool, color: int)
    requires mode.xor && (color == 0 || color == 1)
    ensures Undone(buf, mode, LineDots(x1, y1, x2, y2, color))
    ensures Undone(buf, mode, BoxDots(x1, y1, x2, y2, color, thick, fill))
    ensures Undone(buf, mode, CircleDots(x1, y1, r, fill, color))
  {
    hide Undone, LineDots, BoxDots, CircleDots;
    LineColour(x1, y1, x2, y2, color);
    BoxColour(x1, y1, x2, y2, color, thick, fill);
    CircleColour(x1, y1, r, fill, color);
    XorTwiceRestores(buf, mode, LineDots(x1, y1, x2, y2, color));
    XorTwiceRestores(buf, mode, BoxDots(x1, y1, x2, y2, color, thick, fill));
    XorTwiceRestores(buf, mode, CircleDots(x1, y1, r, fill, color));
  }
}
