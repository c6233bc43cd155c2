/** The drawing vocabulary of the application: colours, pixels and the one
    primitive of the graphics context it uses, a filled rectangle. */
module Graphics {
  import opened Wrappers

  /** An opaque RGB colour; `Rgb` is the only checked way to make one. */
  datatype Color = Color(red: int, green: int, blue: int)

  predicate InChannelRange(v: int) {
    0 <= v <= 255
  }

  /** JavaFX `Color.rgb(r, g, b)`: rejects a component outside [0, 255]. */
  function Rgb(r: int, g: int, b: int): (c: Result<Color>)
    ensures c.Ok? <==> InChannelRange(r) && InChannelRange(g) && InChannelRange(b)
    ensures c.Ok? ==> c.value.red == r && c.value.green == g && c.value.blue == b
  {
    if InChannelRange(r) && InChannelRange(g) && InChannelRange(b) then Ok(Color(r, g, b))
    else Err(IllegalArgument)
  }

  const White := Color(255, 255, 255)
  const Gray := Color(128, 128, 128)

  /** A computed pixel: canvas coordinates and the colour to paint there. */
  datatype Pixel = Pixel(x: int, y: int, color: Color)

  /** `gc.setFill(fill); gc.fillRect(x, y, w, h)`; a rectangle whose width or
      height is not positive paints nothing. */
  datatype DrawOp = FillRect(fill: Color, x: int, y: int, w: int, h: int)
  {
    /** Does this fill paint the pixel whose top-left corner is (px, py)? */
    predicate Covers(px: int, py: int) {
      x <= px < x + w && y <= py < y + h
    }
  }

  /** The 1x1 fill that paints one pixel. */
  function PixelFill(p: Pixel): (op: DrawOp)
    ensures op.fill == p.color
    ensures forall px, py :: op.Covers(px, py) <==> px == p.x && py == p.y
  {
    FillRect(p.color, p.x, p.y, 1, 1)
  }
}
