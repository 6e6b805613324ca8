/**
 * The colour value the library passes around. The Java code uses
 * java.awt.Color, whose constructor rejects channels outside [0,255];
 * here that is a triple of unbounded integers (`Rgb`, what the int[]
 * out-parameters hold) and the subset type `Color` of valid triples.
 */
module Colors {

  datatype Option<+T> = None | Some(value: T)

  /** Three channel values with no bound on them, as an int[3] holds them. */
  datatype Rgb = Rgb(red: int, green: int, blue: int)
  {
    /** Every channel fits in an unsigned byte. */
    predicate Valid() {
      0 <= red <= 255 && 0 <= green <= 255 && 0 <= blue <= 255
    }
  }

  /** A java.awt.Color without alpha: it can only hold valid channels. */
  type Color = c: Rgb | c.Valid() witness Rgb(0, 0, 0)

  const Black: Color := Rgb(0, 0, 0)
  const White: Color := Rgb(255, 255, 255)

  /**
   * `new Color(r, g, b)`: None stands for the IllegalArgumentException
   * thrown when a channel lies outside [0,255].
   */
  function NewColor(r: int, g: int, b: int): (c: Option<Color>)
    ensures c.Some? <==> 0 <= r <= 255 && 0 <= g <= 255 && 0 <= b <= 255
    ensures c.Some? ==> c.value.red == r && c.value.green == g && c.value.blue == b
  {
    if Rgb(r, g, b).Valid() then Some(Rgb(r, g, b)) else None
  }
}
