/** Values shared by every part of the converter: 8-bit channels, RGB triples
    and the optional-value wrapper used for Python's `None`. */
module Common {

  /** One 8-bit quantity: a colour channel, an alpha value, a palette entry
      or a palette index. */
  type Byte = x: int | 0 <= x < 256

  datatype Option<+T> = None | Some(value: T) {
    function GetOr(default: T): T {
      match this
      case Some(v) => v
      case None => default
    }
  }

  /** An RGB triple, as the tuples `(r, g, b)` the script passes around. */
  datatype Rgb = Rgb(r: Byte, g: Byte, b: Byte)

  const White := Rgb(255, 255, 255)

  /** `max(0, min(255, x))`: used for the decimal colour channels and for the
      alpha threshold given on the command line. */
  function Clamp(x: int): (r: Byte)
    ensures 0 <= x <= 255 ==> r == x
    ensures x < 0 ==> r == 0
    ensures x > 255 ==> r == 255
  {
    if x < 0 then 0 else if x > 255 then 255 else x
  }
}
