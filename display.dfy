/**
 * The bitmap canvas the game draws on, reduced to what the engine observes:
 * which cells are lit (the game's only collision oracle) and the lines of
 * text it has printed.
 */
module Display {
  import opened Geometry

  /** One `println` call: a number (the score) or a string. */
  datatype Line = Number(n: int) | Text(s: string)

  class Canvas {
    /** The lit cells; `getPixel` is membership in this set. */
    var lit: set<Point>
    /** Every line printed so far, oldest first. */
    var printed: seq<Line>

    /** A canvas whose only lit cells are the given ones (the bounding box). */
    constructor (border: set<Point>)
      ensures lit == border && printed == []
    {
      lit := border;
      printed := [];
    }

    /** `drawPixel` / `writePixel`: light the cell when `on`, clear it otherwise. */
    method DrawPixel(p: Point, on: bool)
      modifies this
      ensures lit == if on then old(lit) + {p} else old(lit) - {p}
      ensures printed == old(printed)
    {
      if on {
        lit := lit + {p};
      } else {
        lit := lit - {p};
      }
    }

    /** `getPixel`: whether the cell is lit. */
    method GetPixel(p: Point) returns (on: bool)
      ensures on <==> p in lit
    {
      on := p in lit;
    }

    /** `println`: append one line of text; glyph pixels are not modelled. */
    method Println(line: Line)
      modifies this
      ensures printed == old(printed) + [line]
      ensures lit == old(lit)
    {
      printed := printed + [line];
    }
  }
}
