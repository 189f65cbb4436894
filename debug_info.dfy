/**
  `DebugInfo`: the per-pass geometry record the layout pass writes for every
  visible child. Its fields are public and written in place.
*/
module Debug {
  import opened JavaLang

  class DebugInfo {
    var isHorizontal: bool
    /** The child's width including the left and right padding. */
    var totalWidth: int
    /** The child's height including the top and bottom padding; the row height once stamped. */
    var totalHeight: int
    var paddingLeft: Byte
    var paddingRight: Byte
    var paddingTop: Byte
    var paddingBottom: Byte
    var width: int
    var height: int

    /** The no-argument constructor: Java's zero values. */
    constructor ()
      ensures !isHorizontal && totalWidth == 0 && totalHeight == 0
      ensures paddingLeft == 0 && paddingRight == 0 && paddingTop == 0 && paddingBottom == 0
      ensures width == 0 && height == 0
    {
      isHorizontal := false;
      totalWidth, totalHeight := 0, 0;
      paddingLeft, paddingRight, paddingTop, paddingBottom := 0, 0, 0, 0;
      width, height := 0, 0;
    }

    /** The seven-argument constructor; `width` and `height` keep their zero values. */
    constructor Of(isHorizontal: bool, totalWidth: int, totalHeight: int,
                   paddingLeft: Byte, paddingRight: Byte, paddingTop: Byte, paddingBottom: Byte)
      ensures this.isHorizontal == isHorizontal
      ensures this.totalWidth == totalWidth && this.totalHeight == totalHeight
      ensures this.paddingLeft == paddingLeft && this.paddingRight == paddingRight
      ensures this.paddingTop == paddingTop && this.paddingBottom == paddingBottom
      ensures width == 0 && height == 0
    {
      this.isHorizontal := isHorizontal;
      this.totalWidth, this.totalHeight := totalWidth, totalHeight;
      this.paddingLeft, this.paddingRight := paddingLeft, paddingRight;
      this.paddingTop, this.paddingBottom := paddingTop, paddingBottom;
      width, height := 0, 0;
    }
  }
}
