/** What the drawing loops send to the display. */
module Display {
  /** One `fillRect` call for a square, positioned relative to the text
      cursor, with the colour it is filled with. */
  datatype Square<C> = Square(left: int, top: int, size: nat, color: C)
}
