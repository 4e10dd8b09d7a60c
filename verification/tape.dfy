/**
 * The tape inspector's window arithmetic: which 11 cells are shown around a
 * pointer, and the column of the arrow that marks the pointer's cell.
 */
module TapeView {
  import opened Interpreter

  const WindowWidth: nat := 11

  /** Shown cells are `start .. end-1`; `arrow` is the arrow's offset past the index column. */
  datatype Window = Window(start: nat, end: nat, arrow: nat)

  function SelectWindow(ptr: nat): (w: Window)
    ensures w.end == w.start + WindowWidth
    ensures w.end <= TapeLength
    ensures w.start <= ptr
    ensures ptr < TapeLength ==> ptr < w.end
    ensures 6 <= ptr <= TapeLength - 6 ==> ptr - w.start == 5
    // The arrow sits 3 columns into the 6-column cell that holds the pointer.
    ensures w.arrow % 6 == 3 && w.start + (w.arrow - 3) / 6 == ptr
    ensures ptr < TapeLength ==> 3 <= w.arrow <= 63
  {
    var (start, end) :=
      if ptr < 6 then (0, 11)
      else if ptr > 29994 then (29989, 30000)
      else (ptr - 5, ptr + 6);
    Window(start, end, 3 + (ptr - start) * 6)
  }

  function Clamp(x: int, lo: int, hi: int): int
    requires lo <= hi
  {
    if x < lo then lo else if x > hi then hi else x
  }

  /** The window is the 11-cell window centred on the pointer, pushed back
      onto the tape when it would stick out at either end. */
  lemma WindowIsClampedCentre(ptr: nat)
    requires ptr < TapeLength
    ensures SelectWindow(ptr).start == Clamp(ptr - 5, 0, TapeLength - WindowWidth)
  {
  }
}
