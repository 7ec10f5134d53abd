/** The state of one grid position of the Minesweeper board (Cell.js). */
module Cells {

  /** A value that may be absent; `None` stands for JavaScript's `undefined`. */
  datatype Option<T> = None | Some(value: T)

  /**
   * One cell of the grid. Its coordinates and its bomb bit are fixed when it
   * is created (the source has no setter for them); the suspicious mark, the
   * hidden flag and the neighbour value are overwritten by the setters.
   */
  class Cell {
    const X: int
    const Y: int
    const bomb: bool
    var suspicious: bool
    var rawValue: Option<int>
    var hidden: bool

    /** Stores the coordinates, bomb bit, value and hidden flag as given; a new cell is never suspicious. */
    constructor (x: int, y: int, isBomb: bool, value: Option<int>, isHidden: bool)
      ensures X == x && Y == y && bomb == isBomb
      ensures rawValue == value && hidden == isHidden
      ensures !suspicious
    {
      X := x;
      Y := y;
      bomb := isBomb;
      suspicious := false;
      rawValue := value;
      hidden := isHidden;
    }

    /** The bomb bit given at construction; it is a `const`, so no method of the cell changes it. */
    function IsBomb(): (b: bool)
      ensures b == bomb
    {
      bomb
    }

    method SetSuspicious(s: bool)
      modifies this`suspicious
      ensures IsSuspicious() == s
      ensures hidden == old(hidden) && rawValue == old(rawValue)
    {
      suspicious := s;
    }

    /** The suspicious mark as last set, false for a new cell. */
    function IsSuspicious(): (s: bool)
      reads this`suspicious
      ensures s == suspicious
    {
      suspicious
    }

    method SetHidden(h: bool)
      modifies this`hidden
      ensures IsHidden() == h
      ensures suspicious == old(suspicious) && rawValue == old(rawValue)
    {
      hidden := h;
    }

    /** The hidden flag as last set, or as given at construction. */
    function IsHidden(): (h: bool)
      reads this`hidden
      ensures h == hidden
    {
      hidden
    }

    method SetValue(v: int)
      modifies this`rawValue
      ensures rawValue == Some(v) && GetValue() == v
      ensures suspicious == old(suspicious) && hidden == old(hidden)
    {
      rawValue := Some(v);
    }

    /** The stored value, where an absent value reads as 0. */
    function GetValue(): (v: int)
      reads this`rawValue
      ensures rawValue == None ==> v == 0
      ensures rawValue != None ==> v == rawValue.value
    {
      match rawValue
      case None => 0
      case Some(n) => n
    }
  }
}
