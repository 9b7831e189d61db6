/**
 * A single square of the maze as drawn on screen: the shade palette it
 * is painted from, which shade of that palette it shows, its size, and
 * the colouring group the player has put it in.
 */
module Cells {
  import opened Wrappers

  /** Colour shown when the shade index falls outside the palette. */
  const White := 0xFFFFFF

  /** Size a cell is drawn at when none is given. */
  const DefaultSize := 40

  class MazeCell {
    var shades: seq<int>
    var shadeIndex: int
    var size: int
    /** `None` until the player colours the cell. */
    var groupId: Option<int>

    constructor (shades: seq<int>, shadeIndex: int := 0, size: int := DefaultSize)
      ensures this.shades == shades && this.shadeIndex == shadeIndex && this.size == size
      ensures groupId == None
    {
      this.shades := shades;
      this.shadeIndex := shadeIndex;
      this.size := size;
      groupId := None;
    }

    /** The colour the cell is filled with: its current shade, or white when there is none. */
    function DisplayColor(): (c: int)
      reads this
      ensures c in shades || c == White
      ensures 0 <= shadeIndex < |shades| ==> c == shades[shadeIndex]
      ensures !(0 <= shadeIndex < |shades|) ==> c == White
    {
      if 0 <= shadeIndex < |shades| then shades[shadeIndex] else White
    }

    method SetColorKey(shades: seq<int>)
      modifies this
      ensures this.shades == shades
      ensures shadeIndex == old(shadeIndex) && size == old(size) && groupId == old(groupId)
    {
      this.shades := shades;
    }

    method SetShadeIndex(shadeIndex: int)
      modifies this
      ensures this.shadeIndex == shadeIndex
      ensures shades == old(shades) && size == old(size) && groupId == old(groupId)
    {
      this.shadeIndex := shadeIndex;
    }

    method SetSize(size: int)
      modifies this
      ensures this.size == size
      ensures shades == old(shades) && shadeIndex == old(shadeIndex) && groupId == old(groupId)
    {
      this.size := size;
    }
  }
}
